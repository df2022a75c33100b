/**
  The module-level state of gtml.py and the operations that update it in
  place: `Define`, which writes one macro, and the start-up loop that feeds
  every environment variable through it.
*/
module Gtml {
  import opened MacroSpec

  /** The dictionary `defines` and the list `extensions`, both initially empty. */
  class MacroTable {
    var defines: map<string, string>
    var extensions: seq<string>

    constructor ()
      ensures defines == map[] && extensions == []
    {
      defines := map[];
      extensions := [];
    }

    /** The current state as a value. */
    function Snapshot(): Table
      reads this
    {
      Table(defines, extensions)
    }

    /**
      Add a macro to the definition list. A reserved name is refused and
      changes nothing; `warned` reports the refusal. `refresh` stands for the
      timestamp update that defining `LANGUAGE` is meant to trigger.
    */
    method Define(key: string, value: string, refresh: Hook) returns (warned: bool)
      modifies this
      ensures warned <==> IsReserved(key)
      ensures Snapshot() == Apply(old(Snapshot()), key, value, refresh)
    {
      if key == "__PYTHON__" || key == "__SYSTEM__" || key == "__NEWLINE__" || key == "__TAB__" {
        return true;
      }
      warned := false;
      if key == ExtensionKey {
        extensions := extensions + [value];
      }
      if key == LanguageKey {
        defines := refresh(defines);
      }
      var v := value;
      if v == "" {
        v := Blank;
      }
      defines := defines[key := v];
    }

    /**
      Feed every (name, value) pair through `Define`, in order; `refused` lists
      the names that were refused.
    */
    method DefineAll(pairs: seq<(string, string)>, refresh: Hook) returns (refused: seq<string>)
      modifies this
      ensures Snapshot() == ApplyAll(old(Snapshot()), pairs, refresh)
      ensures refused == RefusedKeys(pairs)
    {
      refused := [];
      var i := 0;
      while i < |pairs|
        invariant 0 <= i <= |pairs|
        invariant Snapshot() == ApplyAll(old(Snapshot()), pairs[..i], refresh)
        invariant refused + RefusedKeys(pairs[i..]) == RefusedKeys(pairs)
      {
        var warned := Define(pairs[i].0, pairs[i].1, refresh);
        if warned {
          refused := refused + [pairs[i].0];
        }
        assert pairs[..i + 1][..i] == pairs[..i];
        assert pairs[i..][1..] == pairs[i + 1..];
        i := i + 1;
      }
      assert pairs[..i] == pairs;
    }
  }
}
