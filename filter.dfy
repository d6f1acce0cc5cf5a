// The filter text of a query: the `#`/`##` rewrite that `compile` applies
// before handing the text to the JavaScript engine, the match-all case for
// an empty filter, and `match`, which runs the compiled code on one record.

module Filter {
  import opened Json

  /** The rewrite of index.js:18-22: the pattern `##?` is replaced left to
      right; a match `##` becomes a literal `#` and a lone `#` becomes the
      name of the index parameter. Every other character is copied. */
  function Rewrite(s: string): string {
    if s == [] then []
    else if s[0] == '#' then
      if |s| >= 2 && s[1] == '#' then "#" + Rewrite(s[2..])
      else "__index" + Rewrite(s[1..])
    else [s[0]] + Rewrite(s[1..])
  }

  /** How a filter text reads: a plain character, or a reference to the
      record's index. */
  datatype Token = Char(c: char) | IndexRef

  /** The lexical reading of a filter text: `##` is an escaped `#` and takes
      priority over a lone `#`, which refers to the index. */
  function Tokenize(s: string): (ts: seq<Token>)
    ensures |ts| <= |s|
  {
    if s == [] then []
    else if s[0] == '#' then
      if |s| >= 2 && s[1] == '#' then [Char('#')] + Tokenize(s[2..])
      else [IndexRef] + Tokenize(s[1..])
    else [Char(s[0])] + Tokenize(s[1..])
  }

  /** The JavaScript text of a token sequence. */
  function Render(ts: seq<Token>): string {
    if ts == [] then []
    else (match ts[0] case Char(c) => [c] case IndexRef => "__index") + Render(ts[1..])
  }

  /** The filter text a caller writes for a token sequence. */
  function Escape(ts: seq<Token>): string {
    if ts == [] then [] else Spelling(ts[0]) + Escape(ts[1..])
  }

  /** How a caller writes one token. */
  function Spelling(t: Token): string {
    match t
    case Char(c) => if c == '#' then "##" else [c]
    case IndexRef => "#"
  }

  lemma EscapeCons(t: Token, ts: seq<Token>)
    ensures Escape([t] + ts) == Spelling(t) + Escape(ts)
  {
    assert ([t] + ts)[1..] == ts;
  }

  predicate IsSharp(t: Token) {
    t == IndexRef || t == Char('#')
  }

  /** A token sequence that a filter text can express: an index reference is
      never directly followed by a `#` or by another index reference, since
      `###` reads `##` first. */
  predicate Expressible(ts: seq<Token>) {
    forall i :: 0 <= i < |ts| - 1 && ts[i] == IndexRef ==> !IsSharp(ts[i + 1])
  }

  /** The rewrite renders the lexical reading of the text: each `##` gives
      `#`, each lone `#` gives `__index`, all else is unchanged. */
  lemma {:induction false} RewriteRendersTokens(s: string)
    ensures Rewrite(s) == Render(Tokenize(s))
  {
    if s == [] {
    } else if s[0] == '#' && |s| >= 2 && s[1] == '#' {
      RewriteRendersTokens(s[2..]);
      assert Tokenize(s)[1..] == Tokenize(s[2..]);
    } else {
      RewriteRendersTokens(s[1..]);
      assert Tokenize(s)[1..] == Tokenize(s[1..]);
    }
  }

  /** A text without `#` passes the rewrite unchanged. */
  lemma {:induction false} RewriteWithoutSharp(s: string)
    requires '#' !in s
    ensures Rewrite(s) == s
  {
    if s != [] {
      assert '#' !in s[1..] by {
        forall j | 0 <= j < |s[1..]| ensures s[1..][j] != '#' { assert s[1..][j] == s[j + 1]; }
      }
      RewriteWithoutSharp(s[1..]);
    }
  }

  /** A filter text without `#` reaches the engine as is, wrapped. */
  lemma BodyWithoutSharp(text: string)
    requires '#' !in text
    ensures Body(text) == "return (" + text + ");"
  {
    RewriteWithoutSharp(text);
  }

  /** One token read off the front: if escaping the rest gives the rest of
      the text back, escaping the whole reading gives the whole text back. */
  lemma EscapeTokenizeStep(s: string, k: nat, t: Token)
    requires 0 < k <= |s|
    requires Tokenize(s) == [t] + Tokenize(s[k..])
    requires Spelling(t) == s[..k]
    requires Escape(Tokenize(s[k..])) == s[k..]
    ensures Escape(Tokenize(s)) == s
  {
    EscapeCons(t, Tokenize(s[k..]));
    assert s[..k] + s[k..] == s;
  }

  /** Escaping the reading of a text gives back the text: no two texts read
      alike. */
  lemma {:induction false} EscapeTokenize(s: string)
    ensures Escape(Tokenize(s)) == s
  {
    if s == [] {
    } else if s[0] == '#' && |s| >= 2 && s[1] == '#' {
      EscapeTokenize(s[2..]);
      assert Spelling(Char('#')) == s[..2];
      EscapeTokenizeStep(s, 2, Char('#'));
    } else if s[0] == '#' {
      EscapeTokenize(s[1..]);
      assert Spelling(IndexRef) == s[..1];
      EscapeTokenizeStep(s, 1, IndexRef);
    } else {
      EscapeTokenize(s[1..]);
      assert Spelling(Char(s[0])) == s[..1];
      EscapeTokenizeStep(s, 1, Char(s[0]));
    }
  }

  /** The escaped text begins with `#` exactly when the first token is one. */
  lemma EscapeHead(ts: seq<Token>)
    ensures (|Escape(ts)| > 0 && Escape(ts)[0] == '#') <==> (|ts| > 0 && IsSharp(ts[0]))
    ensures Escape(ts) == [] <==> ts == []
  {
    if ts != [] {
      match ts[0]
      case Char(c) =>
      case IndexRef =>
    }
  }

  /** Reading the escaped text gives back the tokens exactly when the tokens
      are expressible. */
  lemma {:induction false} TokenizeEscape(ts: seq<Token>)
    ensures Tokenize(Escape(ts)) == ts <==> Expressible(ts)
  {
    if ts == [] {
    } else {
      var rest := Escape(ts[1..]);
      TokenizeEscape(ts[1..]);
      EscapeHead(ts[1..]);
      assert Expressible(ts) <==> Expressible(ts[1..]) && (ts[0] == IndexRef && |ts| > 1 ==> !IsSharp(ts[1])) by {
        if Expressible(ts[1..]) && (ts[0] == IndexRef && |ts| > 1 ==> !IsSharp(ts[1])) {
          forall i | 0 <= i < |ts| - 1 && ts[i] == IndexRef ensures !IsSharp(ts[i + 1]) {
            if i > 0 { assert ts[1..][i - 1] == ts[i]; }
          }
        }
        if Expressible(ts) {
          forall i | 0 <= i < |ts[1..]| - 1 && ts[1..][i] == IndexRef ensures !IsSharp(ts[1..][i + 1]) {
            assert ts[1..][i] == ts[i + 1];
          }
        }
      }
      match ts[0]
      case Char(c) =>
        if c == '#' {
          assert Escape(ts) == "##" + rest;
          assert Escape(ts)[2..] == rest;
        } else {
          assert Escape(ts) == [c] + rest;
          assert Escape(ts)[1..] == rest;
        }
        assert ts == [ts[0]] + ts[1..];
      case IndexRef =>
        assert Escape(ts) == "#" + rest;
        assert Escape(ts)[1..] == rest;
        if |ts| > 1 && IsSharp(ts[1]) {
          assert Tokenize(Escape(ts))[0] == Char('#');
        } else {
          assert ts == [ts[0]] + ts[1..];
        }
    }
  }

  /** What the caller passes in the filter position: nothing (or `null`), a
      completion callback (index.js:140-143 and its twins move it to the
      callback position and clear the filter), or a filter text. */
  datatype FilterArg = Absent | Callback | Text(text: string)

  /** The text `compile` receives: `filter || ''` once a callback is moved out. */
  function Source(f: FilterArg): string {
    match f
    case Text(t) => t
    case _ => ""
  }

  /** What `compile` returns: the always-true function cached under `''`, or
      a function built from a body text. */
  datatype Compiled = MatchAll | Code(body: string)

  /** The body text handed to `new Function('$', '__index', …)`. */
  function Body(text: string): string {
    "return (" + Rewrite(text) + ");"
  }

  /** `compile` without its cache (index.js:15-26): the empty text gives the
      always-true function, any other text the code of its token reading,
      with each `##` read as `#` and each lone `#` as the index. */
  function Compile(text: string): (c: Compiled)
    ensures c.MatchAll? <==> text == ""
    ensures c.Code? ==> c.body == "return (" + Render(Tokenize(text)) + ");"
  {
    RewriteRendersTokens(text);
    if text == "" then MatchAll else Code(Body(text))
  }

  /** The JavaScript engine: `!!new Function('$', '__index', body)(v, i)`,
      the truthiness of the body's result with `$` bound to the record and
      `__index` to its index. It runs arbitrary code, so it stays abstract. */
  type Runner = (string, Value, int) -> bool

  /** `match` (index.js:56-58): an empty filter matches every record, any
      other filter is the engine's answer on the code of its token reading. */
  function Match(f: FilterArg, run: Runner, v: Value, i: int): (r: bool)
    ensures Source(f) == "" ==> r
    ensures Source(f) != "" ==> r == run("return (" + Render(Tokenize(Source(f))) + ");", v, i)
  {
    match Compile(Source(f))
    case MatchAll => true
    case Code(body) => run(body, v, i)
  }

  /** The filter as a predicate on a record and its index. */
  function Predicate(f: FilterArg, run: Runner): (Value, int) -> bool {
    (v: Value, i: int) => Match(f, run, v, i)
  }

  /** A filter matches every record under every engine exactly when it is
      absent, a callback or the empty text. */
  lemma MatchAllIff(f: FilterArg)
    ensures Source(f) == "" <==> forall run: Runner, v: Value, i: int :: Match(f, run, v, i)
    ensures Source(f) == "" <==> (f.Absent? || f.Callback? || f == Text(""))
  {
    if Source(f) != "" {
      var never: Runner := (body: string, v: Value, i: int) => false;
      assert !Match(f, never, Null, 0);
    }
  }
}
