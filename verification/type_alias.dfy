/** Generic-arity aliases and type-argument text: `mkGenericTypeAlias`
    (both overloads), `formatTyargs` and `NSPrefix` of the walker. The alias
    keeps `Dictionary` and `Dictionary<K,V>` apart as lookup keys:
    the latter becomes `Dictionary'2`. */
module TypeAlias {
  import opened Wrappers
  import opened DotNetText

  /** `name` for a non-positive count, `name'k` for a count k > 0 */
  function MkGenericTypeAlias(name: string, tyargCount: int): (r: string)
    ensures tyargCount <= 0 ==> r == name
    ensures tyargCount > 0 ==>
              && |r| > |name| + 1
              && r[..|name|] == name
              && r[|name|] == '\''
              && AllDigits(r[|name| + 1..])
              && r[|name| + 1] != '0'
              && ParseDigits(r[|name| + 1..]) == tyargCount
  {
    if tyargCount > 0 then
      var digits := NatToString(tyargCount);
      ParseNatToString(tyargCount);
      assert (name + "'" + digits)[|name| + 1..] == digits;
      name + "'" + digits
    else name
  }

  /** The overload taking the type-argument list: a null list counts as no
      type arguments */
  function MkGenericTypeAliasForArgs(name: string, tyargs: Option<seq<string>>): (r: string)
    ensures r == name <==> tyargs.None? || |tyargs.value| == 0
    ensures tyargs.Some? ==> r == MkGenericTypeAlias(name, |tyargs.value|)
  {
    MkGenericTypeAlias(name, if tyargs.None? then 0 else |tyargs.value|)
  }

  /** Reads an alias back as its base name and arity: the text after the
      last `'` is the arity */
  function DecodeGenericTypeAlias(alias: string): (string, nat) {
    var q := LastIndexOf(alias, '\'');
    if q < 0 then (alias, 0) else (alias[..q], ParseDigits(alias[q + 1..]))
  }

  /** A base name without `'` (every C# identifier) and a non-negative
      arity are recovered from their alias */
  lemma DecodeGenericTypeAliasRoundTrip(name: string, k: nat)
    requires '\'' !in name
    ensures DecodeGenericTypeAlias(MkGenericTypeAlias(name, k)) == (name, k)
  {
  }

  /** Same base name, different arities: different aliases */
  lemma AliasArityInjective(name: string, a: nat, b: nat)
    ensures MkGenericTypeAlias(name, a) == MkGenericTypeAlias(name, b) ==> a == b
  {
  }

  /** Different (name, arity) pairs give different aliases, as long as the
      names contain no `'` */
  lemma AliasInjective(n1: string, a: nat, n2: string, b: nat)
    requires '\'' !in n1 && '\'' !in n2
    ensures MkGenericTypeAlias(n1, a) == MkGenericTypeAlias(n2, b) ==> n1 == n2 && a == b
  {
  }

  /** `Dictionary` and `Dictionary<K,V>` get different keys */
  lemma DictionaryAliases()
    ensures MkGenericTypeAliasForArgs("Dictionary", None) == "Dictionary"
    ensures MkGenericTypeAliasForArgs("Dictionary", Some(["K", "V"])) == "Dictionary'2"
    ensures MkGenericTypeAliasForArgs("Dictionary", None)
            != MkGenericTypeAliasForArgs("Dictionary", Some(["K", "V"]))
  {
  }

  /** Reads back the text `formatTyargs` produces: `""` is the empty list,
      `<...>` is the comma-separated list inside the brackets */
  function ParseTyargs(s: string): Option<seq<string>> {
    if s == "" then Some([])
    else if |s| >= 2 && s[0] == '<' && s[|s| - 1] == '>' then Some(Split(s[1..|s| - 1], ','))
    else None
  }

  /** `formatTyargs`: `<A,B,...>` built by appending every argument followed
      by a comma, then dropping the last comma; `""` for no arguments. A
      null list is a null dereference in the walker, so it is not an input
      here. */
  method FormatTyargs(tyargs: seq<string>) returns (r: string)
    ensures |tyargs| == 0 ==> r == ""
    ensures |tyargs| > 0 ==> r == "<" + Join(tyargs, ',') + ">"
  {
    if |tyargs| == 0 {
      return "";
    }
    var buf := "<";
    var i := 0;
    while i < |tyargs|
      invariant 0 <= i <= |tyargs|
      invariant buf == "<" + Terminated(tyargs[..i], ',')
    {
      assert tyargs[..i + 1][..i] == tyargs[..i];
      buf := buf + tyargs[i] + ",";
      i := i + 1;
    }
    assert tyargs[..i] == tyargs;
    TerminatedIsJoinPlusSeparator(tyargs, ',');
    buf := buf[..|buf| - 1];
    assert buf == "<" + Join(tyargs, ',');
    buf := buf + ">";
    r := buf;
  }

  /** The text `FormatTyargs` produces reads back as the argument list,
      provided no argument contains a comma */
  lemma FormatTyargsRoundTrip(tyargs: seq<string>)
    requires forall i :: 0 <= i < |tyargs| ==> ',' !in tyargs[i]
    ensures |tyargs| == 0 ==> ParseTyargs("") == Some(tyargs)
    ensures |tyargs| > 0 ==> ParseTyargs("<" + Join(tyargs, ',') + ">") == Some(tyargs)
  {
    if |tyargs| > 0 {
      var r := "<" + Join(tyargs, ',') + ">";
      SplitJoin(tyargs, ',');
      assert r[1..|r| - 1] == Join(tyargs, ',');
    }
  }

  /** `NSPrefix`: the namespace followed by `.`, or `""` for a null or empty
      namespace */
  function NSPrefix(ns: Option<string>): (r: string)
    ensures r == [] <==> ns.None? || ns.value == []
    ensures r != [] ==> r[..|r| - 1] == ns.value && r[|r| - 1] == '.'
  {
    if ns.None? || |ns.value| == 0 then "" else ns.value + "."
  }
}
