/** The walker's import set and the two `AddToImports` overloads. The set
    itself is a mathematical set of package names; null or empty names and
    null sequences of names are ignored. */
module Imports {
  import opened Wrappers

  /** A name that the walker records: present and non-empty */
  predicate Recordable(imp: Option<string>) {
    imp.Some? && imp.value != []
  }

  /** `AddToImports(string)` */
  function AddToImports(imports: set<string>, imp: Option<string>): (r: set<string>)
    ensures !Recordable(imp) ==> r == imports
    ensures Recordable(imp) ==> r == imports + {imp.value}
  {
    if imp.None? || |imp.value| == 0 then imports else imports + {imp.value}
  }

  /** Adding the same name twice is the same as adding it once */
  lemma AddToImportsIdempotent(imports: set<string>, imp: Option<string>)
    ensures AddToImports(AddToImports(imports, imp), imp) == AddToImports(imports, imp)
  {
  }

  /** The order of two additions does not matter */
  lemma AddToImportsCommutes(imports: set<string>, a: Option<string>, b: Option<string>)
    ensures AddToImports(AddToImports(imports, a), b) == AddToImports(AddToImports(imports, b), a)
  {
  }

  /** The names of `imps` that get recorded */
  function RecordableNames(imps: seq<Option<string>>): set<string> {
    set i | 0 <= i < |imps| && Recordable(imps[i]) :: imps[i].value
  }

  /** The names of the first element and of the rest together */
  lemma RecordableNamesCons(imps: seq<Option<string>>)
    requires |imps| > 0
    ensures RecordableNames(imps) == RecordableNames([imps[0]]) + RecordableNames(imps[1..])
  {
    var tail := imps[1..];
    forall x | x in RecordableNames(imps)
      ensures x in RecordableNames([imps[0]]) + RecordableNames(tail)
    {
      var i :| 0 <= i < |imps| && Recordable(imps[i]) && imps[i].value == x;
      if i > 0 {
        assert tail[i - 1] == imps[i];
      } else {
        assert [imps[0]][0] == imps[0];
      }
    }
    forall x | x in RecordableNames(tail) ensures x in RecordableNames(imps) {
      var i :| 0 <= i < |tail| && Recordable(tail[i]) && tail[i].value == x;
      assert imps[i + 1] == tail[i];
    }
  }

  /** The `foreach` of `AddToImports(IEnumerable<string>)`: the single-name
      overload applied to each name in turn, which adds exactly the
      recordable names */
  function AddEachToImports(imports: set<string>, imps: seq<Option<string>>): (r: set<string>)
    ensures r == imports + RecordableNames(imps)
    decreases |imps|
  {
    if |imps| == 0 then imports
    else
      RecordableNamesCons(imps);
      AddEachToImports(AddToImports(imports, imps[0]), imps[1..])
  }

  /** `AddToImports(IEnumerable<string>)`: a null sequence changes nothing */
  function AddAllToImports(imports: set<string>, imps: Option<seq<Option<string>>>): (r: set<string>)
    ensures imps.None? ==> r == imports
  {
    if imps.None? then imports else AddEachToImports(imports, imps.value)
  }

  /** The sequence overload adds exactly the recordable names, and nothing
      else changes */
  lemma AddAllToImportsContents(imports: set<string>, imps: Option<seq<Option<string>>>, x: string)
    ensures x in AddAllToImports(imports, imps) <==>
              x in imports || (imps.Some? && x != [] && Some(x) in imps.value)
  {
    if imps.Some? {
      if Some(x) in imps.value && x != [] {
        var i :| 0 <= i < |imps.value| && imps.value[i] == Some(x);
        assert x in RecordableNames(imps.value);
      }
    }
  }

  /** Adding two sequences one after the other is adding their
      concatenation */
  lemma AddEachConcat(imports: set<string>, xs: seq<Option<string>>, ys: seq<Option<string>>)
    ensures AddEachToImports(AddEachToImports(imports, xs), ys) == AddEachToImports(imports, xs + ys)
  {
    assert RecordableNames(xs + ys) == RecordableNames(xs) + RecordableNames(ys) by {
      forall x | x in RecordableNames(xs + ys)
        ensures x in RecordableNames(xs) + RecordableNames(ys)
      {
        var i :| 0 <= i < |xs + ys| && Recordable((xs + ys)[i]) && (xs + ys)[i].value == x;
        if i >= |xs| {
          assert ys[i - |xs|] == (xs + ys)[i];
        }
      }
      forall x | x in RecordableNames(xs) ensures x in RecordableNames(xs + ys) {
        var i :| 0 <= i < |xs| && Recordable(xs[i]) && xs[i].value == x;
        assert (xs + ys)[i] == xs[i];
      }
      forall x | x in RecordableNames(ys) ensures x in RecordableNames(xs + ys) {
        var i :| 0 <= i < |ys| && Recordable(ys[i]) && ys[i].value == x;
        assert (xs + ys)[|xs| + i] == ys[i];
      }
    }
  }

  /** The order of the names does not matter: sequences with the same
      elements add the same names */
  lemma AddEachOrderIrrelevant(imports: set<string>, xs: seq<Option<string>>, ys: seq<Option<string>>)
    requires forall x :: x in xs <==> x in ys
    ensures AddEachToImports(imports, xs) == AddEachToImports(imports, ys)
  {
    assert RecordableNames(xs) == RecordableNames(ys) by {
      forall x | x in RecordableNames(xs) ensures x in RecordableNames(ys) {
        var i :| 0 <= i < |xs| && Recordable(xs[i]) && xs[i].value == x;
        assert xs[i] in ys;
      }
      forall x | x in RecordableNames(ys) ensures x in RecordableNames(xs) {
        var i :| 0 <= i < |ys| && Recordable(ys[i]) && ys[i].value == x;
        assert ys[i] in xs;
      }
    }
  }
}
