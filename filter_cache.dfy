// The cache inside `compile` (index.js:10-27): a dictionary from text to
// compiled function that starts with the always-true function under `''`.
// As the source writes it, a miss is looked up under the filter text but
// stored under the body text built from it, so a later filter whose text
// equals an earlier body gets that earlier filter's function.

module FilterCache {
  import opened Filter

  class Cache {
    /** The closure's `cache` object. */
    var entries: map<string, Compiled>

    constructor ()
      ensures entries == map["" := MatchAll]
      ensures Coherent()
    {
      entries := map["" := MatchAll];
    }

    /** Every entry is what `compile` makes of its key. */
    predicate Coherent()
      reads this
    {
      forall text :: text in entries ==> entries[text] == Compile(text)
    }

    /** `compile` as index.js:16-25 write it: looked up under the filter
        text, stored under the body text. */
    method CompileAsWritten(filter: string) returns (c: Compiled)
      modifies this
      ensures filter in old(entries) ==> c == old(entries)[filter] && entries == old(entries)
      ensures filter !in old(entries) ==>
        c == Code(Body(filter)) && entries == old(entries)[Body(filter) := c]
    {
      if filter !in entries {
        var body := Body(filter);
        entries := entries[body := Code(body)];
        c := entries[body];
      } else {
        c := entries[filter];
      }
    }

    /** `compile` with the miss stored under the same text it was looked up
        under: a coherent cache stays coherent and always answers what
        `compile` computes from scratch. */
    method CompileKeyed(filter: string) returns (c: Compiled)
      requires Coherent()
      modifies this
      ensures Coherent()
      ensures c == Compile(filter)
      ensures entries == old(entries)[filter := c]
    {
      if filter !in entries {
        entries := entries[filter := Compile(filter)];
      }
      c := entries[filter];
    }
  }

  /** After compiling `1`, the text `return (1);` finds the entry stored for
      `1` and gets its function, although compiling that text afresh gives a
      different body. */
  method CacheCollision() returns (first: Compiled, second: Compiled)
    ensures first == Compile("1")
    ensures second == first
    ensures second != Compile("return (1);")
  {
    RewriteWithoutSharp("1");
    RewriteWithoutSharp("return (1);");
    assert Body("1") == "return (1);";
    var cache := new Cache();
    first := cache.CompileAsWritten("1");
    assert "return (1);" in cache.entries;
    second := cache.CompileAsWritten("return (1);");
    assert |Body("return (1);")| != |Body("1")|;
  }

  /** The keyed cache answers two lookups of the same texts with what
      `compile` computes from scratch. */
  method NoCollision() returns (first: Compiled, second: Compiled)
    ensures first == Compile("1")
    ensures second == Compile("return (1);")
    ensures first != second
  {
    RewriteWithoutSharp("1");
    RewriteWithoutSharp("return (1);");
    var cache := new Cache();
    first := cache.CompileKeyed("1");
    second := cache.CompileKeyed("return (1);");
    assert |Body("return (1);")| != |Body("1")|;
  }
}
