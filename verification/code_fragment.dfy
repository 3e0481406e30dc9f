/** Code-fragment templates: `rewriteCodeFragment` and
    `MethodMapper.RewriteMethod` of the walker. A fragment names its type
    variables `${T}`, `${T1}`, `${T2}`, ... and wraps method names that must
    follow the target naming convention as `@m{ident}`. */
module CodeFragment {
  import opened Wrappers
  import opened DotNetText
  import opened Settings
  import opened Naming

  /** The placeholder for type argument `idx`: `${T}` for 0, `${T<idx>}` for
      the others, with `idx` written in decimal without leading zeros. Its
      only `$` is the first character and its only `}` the last, so no
      placeholder is a prefix of another. */
  function Placeholder(idx: nat): (p: string)
    ensures |p| >= 4 && p[..3] == "${T" && p[|p| - 1] == '}'
    ensures idx == 0 <==> p == "${T}"
    ensures idx > 0 ==> && AllDigits(p[3..|p| - 1]) && p[3] != '0'
                        && ParseDigits(p[3..|p| - 1]) == idx
    ensures forall x :: 1 <= x < |p| ==> p[x] != '$'
    ensures forall x :: 0 <= x < |p| - 1 ==> p[x] != '}'
    ensures '@' !in p
  {
    var digits := if idx == 0 then "" else NatToString(idx);
    var p := "${T" + digits + "}";
    assert forall x :: 3 <= x < |p| - 1 ==> p[x] == digits[x - 3];
    assert p[3..|p| - 1] == digits;
    if idx > 0 then
      ParseNatToString(idx);
      p
    else p
  }

  lemma PlaceholderInjective(i: nat, k: nat)
    ensures Placeholder(i) == Placeholder(k) ==> i == k
  {
    var p, q := Placeholder(i), Placeholder(k);
    if p == q && i > 0 && k > 0 {
      assert p[3..|p| - 1] == NatToString(i);
      assert q[3..|q| - 1] == NatToString(k);
      NatToStringInjective(i, k);
    }
  }

  /** A placeholder never begins with a different placeholder, whatever
      follows it */
  lemma PlaceholderPrefixFree(i: nat, k: nat, r: string)
    requires i != k
    requires |Placeholder(i) + r| >= |Placeholder(k)|
    ensures (Placeholder(i) + r)[..|Placeholder(k)|] != Placeholder(k)
  {
    var p, q := Placeholder(i), Placeholder(k);
    var s := p + r;
    if |p| >= |q| {
      if s[..|q|] == q {
        assert p[|q| - 1] == s[|q| - 1] == '}';
        assert p == q;
        PlaceholderInjective(i, k);
      }
    } else {
      assert s[..|q|][|p| - 1] == '}' != q[|p| - 1];
    }
  }

  /** A placeholder other than the one being replaced is copied, and
      replacement resumes right after it */
  lemma ReplaceSkipsOtherPlaceholder(i: nat, k: nat, r: string, rep: string)
    requires i != k
    ensures Replace(Placeholder(i) + r, Placeholder(k), rep)
            == Placeholder(i) + Replace(r, Placeholder(k), rep)
  {
    var p, pat := Placeholder(i), Placeholder(k);
    if |p + r| >= |pat| {
      PlaceholderPrefixFree(i, k, r);
    }
    ReplaceSkipsMismatch(p, r, pat, rep);
  }

  /** `MethodMapper.RewriteMethod`: the identifier of a `@m{..}` marker,
      passed through `toJavaConvention` when the naming flag is on. Unlike
      `rewriteMethodName`, no reserved name is exempt. */
  function RewriteMethodMarker(cfg: CS2JSettings, ident: string): (r: string)
    ensures !cfg.translatorMakeJavaNamingConventions ==> r == ident
    ensures cfg.translatorMakeJavaNamingConventions ==>
              && |r| == |ident|
              && (ident != [] ==> r[0] == ToLower(ident[0]))
              && forall i :: 0 < i < |r| ==> r[i] == ident[i]
    ensures AllWordChars(ident) ==> AllWordChars(r)
  {
    if cfg.translatorMakeJavaNamingConventions then ToJavaConvention(METHOD, Some(ident)) else ident
  }

  /** The marker rewrite agrees with `rewriteMethodName` except on a name
      whose lower-cased form is reserved and differs from it */
  lemma MarkerAgreesWithRewriteMethodName(cfg: CS2JSettings, ident: string)
    ensures RewriteMethodMarker(cfg, ident) != RewriteMethodName(cfg, Some(ident)).value <==>
              && cfg.translatorMakeJavaNamingConventions
              && ident != []
              && ToJavaConvention(METHOD, Some(ident)) in ReservedMethodNames
              && ToJavaConvention(METHOD, Some(ident)) != ident
  {
  }

  /** The length of the identifier of a `@m{ident}` marker at the start of
      `s` (what the regular expression `@m\{(\w+)\}` matches there), or 0 when
      no marker starts there */
  function MarkerIdentLength(s: string): (n: nat)
    ensures n > 0 ==> && 4 + n <= |s| && s[..3] == "@m{"
                      && AllWordChars(s[3..3 + n]) && s[3 + n] == '}'
  {
    if |s| >= 3 && s[..3] == "@m{" then
      var n := WordPrefixLength(s[3..]);
      if n > 0 && 3 + n < |s| && s[3 + n] == '}' then n else 0
    else 0
  }

  /** When no marker is found at the start of `s`, no `@m{` followed by a
      run of word characters and `}` starts there: the greedy `\w+` missed
      none */
  lemma NoMarkerAt(s: string, j: nat)
    requires MarkerIdentLength(s) == 0
    requires 3 < j < |s| && s[..3] == "@m{" && AllWordChars(s[3..j])
    ensures s[j] != '}'
  {
    if WordPrefixLength(s[3..]) > j - 3 {
      assert s[3..][j - 3] == s[j];
    }
  }

  /** `Regex.Replace` with `@m\{(\w+)\}`: every marker, found left to right,
      becomes its rewritten identifier */
  function RewriteMarkers(cfg: CS2JSettings, s: string): string
    decreases |s|
  {
    if |s| == 0 then ""
    else
      var n := MarkerIdentLength(s);
      if n > 0 then RewriteMethodMarker(cfg, s[3..3 + n]) + RewriteMarkers(cfg, s[4 + n..])
      else [s[0]] + RewriteMarkers(cfg, s[1..])
  }

  /** The loop over the type arguments, from index `idx` on: each
      placeholder in turn is replaced by its argument */
  function SubstituteFrom(code: string, tyArgs: seq<string>, idx: nat): string
    requires idx <= |tyArgs|
    decreases |tyArgs| - idx
  {
    if idx == |tyArgs| then code
    else SubstituteFrom(Replace(code, Placeholder(idx), tyArgs[idx]), tyArgs, idx + 1)
  }

  /** The substitution loop leaves code without `$` unchanged */
  lemma {:induction false} SubstituteFromPlain(code: string, tyArgs: seq<string>, idx: nat)
    requires idx <= |tyArgs|
    ensures '$' !in code ==> SubstituteFrom(code, tyArgs, idx) == code
    decreases |tyArgs| - idx
  {
    if idx < |tyArgs| && '$' !in code {
      assert Placeholder(idx)[..3][0] == Placeholder(idx)[0];
      ReplaceAbsent(code, Placeholder(idx), tyArgs[idx]);
      SubstituteFromPlain(code, tyArgs, idx + 1);
    }
  }

  /** `rewriteCodeFragment`: substitute the type arguments (none when the
      list is null), then rewrite the method markers */
  function RewriteCodeFragment(cfg: CS2JSettings, code: string, tyArgs: Option<seq<string>>): string {
    var substituted := if tyArgs.Some? then SubstituteFrom(code, tyArgs.value, 0) else code;
    RewriteMarkers(cfg, substituted)
  }

  // ---------------------------------------------------------------------
  // Templates and what they expand to
  // ---------------------------------------------------------------------

  /** A fragment template, seen as a sequence of pieces */
  datatype Piece =
    | Lit(text: string)           // literal code
    | TyVar(index: nat)           // the placeholder of a type variable
    | MethodRef(ident: string)    // a `@m{ident}` marker

  /** Literal code holds neither `$` nor `@`, and a marker wraps a non-empty
      run of word characters */
  predicate WellFormedPiece(p: Piece) {
    match p
    case Lit(t) => '$' !in t && '@' !in t
    case TyVar(_) => true
    case MethodRef(w) => w != [] && AllWordChars(w)
  }

  predicate WellFormed(ps: seq<Piece>) {
    forall i :: 0 <= i < |ps| ==> WellFormedPiece(ps[i])
  }

  /** A type argument that can neither start a placeholder nor a marker */
  predicate PlainArg(a: string) {
    '$' !in a && '@' !in a
  }

  predicate PlainArgs(args: seq<string>) {
    forall i :: 0 <= i < |args| ==> PlainArg(args[i])
  }

  function RenderPiece(p: Piece): string {
    match p
    case Lit(t) => t
    case TyVar(j) => Placeholder(j)
    case MethodRef(w) => "@m{" + w + "}"
  }

  /** The fragment text of a template */
  function Render(ps: seq<Piece>): string
    decreases |ps|
  {
    if |ps| == 0 then "" else RenderPiece(ps[0]) + Render(ps[1..])
  }

  function ExpandPiece(cfg: CS2JSettings, p: Piece, args: seq<string>): string {
    match p
    case Lit(t) => t
    case TyVar(j) => if j < |args| then args[j] else Placeholder(j)
    case MethodRef(w) => RewriteMethodMarker(cfg, w)
  }

  /** What a template means: every type variable with an argument becomes
      that argument, every other one stays a placeholder, every marker
      becomes its rewritten identifier */
  function Expand(cfg: CS2JSettings, ps: seq<Piece>, args: seq<string>): string
    decreases |ps|
  {
    if |ps| == 0 then "" else ExpandPiece(cfg, ps[0], args) + Expand(cfg, ps[1..], args)
  }

  /** The template after the first `k` type arguments are substituted */
  function InstantiatePiece(p: Piece, args: seq<string>, k: nat): Piece
    requires k <= |args|
  {
    if p.TyVar? && p.index < k then Lit(args[p.index]) else p
  }

  function InstantiateBelow(ps: seq<Piece>, args: seq<string>, k: nat): (qs: seq<Piece>)
    requires k <= |args|
    ensures |qs| == |ps|
    ensures forall i :: 0 <= i < |ps| ==> qs[i] == InstantiatePiece(ps[i], args, k)
    decreases |ps|
  {
    if |ps| == 0 then []
    else
      var rest := InstantiateBelow(ps[1..], args, k);
      assert forall i :: 1 <= i < |ps| ==> ps[i] == ps[1..][i - 1];
      [InstantiatePiece(ps[0], args, k)] + rest
  }

  lemma {:induction false} InstantiateNone(ps: seq<Piece>, args: seq<string>)
    ensures InstantiateBelow(ps, args, 0) == ps
    decreases |ps|
  {
    if |ps| > 0 {
      InstantiateNone(ps[1..], args);
      assert ps == [ps[0]] + ps[1..];
    }
  }

  /** Replacing the `k`-th placeholder of a piece in which the first `k`
      have been substituted gives the piece with the first `k + 1`
      substituted */
  lemma ReplaceStepPiece(p: Piece, args: seq<string>, k: nat, r: string)
    requires k < |args|
    requires WellFormedPiece(p) && PlainArgs(args)
    ensures Replace(RenderPiece(InstantiatePiece(p, args, k)) + r, Placeholder(k), args[k])
            == RenderPiece(InstantiatePiece(p, args, k + 1)) + Replace(r, Placeholder(k), args[k])
  {
    var pat := Placeholder(k);
    if p.TyVar? && p.index == k {
      ReplaceAtStart(pat, r, args[k]);
    } else if p.TyVar? && p.index > k {
      ReplaceSkipsOtherPlaceholder(p.index, k, r, args[k]);
    } else {
      SubstitutedPieceIsPlain(p, args, k);
      ReplaceSkips(RenderPiece(InstantiatePiece(p, args, k)), r, pat, args[k]);
    }
  }

  /** A piece that is not a type variable still to be substituted renders
      without `$` */
  lemma SubstitutedPieceIsPlain(p: Piece, args: seq<string>, k: nat)
    requires k <= |args|
    requires WellFormedPiece(p) && PlainArgs(args)
    requires !(p.TyVar? && p.index >= k)
    ensures '$' !in RenderPiece(InstantiatePiece(p, args, k))
  {
    if p.TyVar? {
      assert PlainArg(args[p.index]);
    } else if p.MethodRef? {
      var t := RenderPiece(p);
      assert t == "@m{" + p.ident + "}";
      assert forall x :: 3 <= x < |t| - 1 ==> t[x] == p.ident[x - 3];
    }
  }

  lemma {:induction false} ReplaceStep(ps: seq<Piece>, args: seq<string>, k: nat)
    requires k < |args|
    requires WellFormed(ps) && PlainArgs(args)
    ensures Replace(Render(InstantiateBelow(ps, args, k)), Placeholder(k), args[k])
            == Render(InstantiateBelow(ps, args, k + 1))
    decreases |ps|
  {
    if |ps| == 0 {
    } else {
      ReplaceStep(ps[1..], args, k);
      ReplaceStepPiece(ps[0], args, k, Render(InstantiateBelow(ps[1..], args, k)));
    }
  }

  lemma {:induction false} SubstituteFromTemplate(ps: seq<Piece>, args: seq<string>, k: nat)
    requires k <= |args|
    requires WellFormed(ps) && PlainArgs(args)
    ensures SubstituteFrom(Render(InstantiateBelow(ps, args, k)), args, k)
            == Render(InstantiateBelow(ps, args, |args|))
    decreases |args| - k
  {
    if k < |args| {
      ReplaceStep(ps, args, k);
      SubstituteFromTemplate(ps, args, k + 1);
    }
  }

  /** Text without `@` holds no marker: it is copied and the rewrite resumes
      right after it */
  lemma {:induction false} RewriteMarkersSkips(cfg: CS2JSettings, t: string, r: string)
    requires '@' !in t
    ensures RewriteMarkers(cfg, t + r) == t + RewriteMarkers(cfg, r)
    decreases |t|
  {
    if |t| > 0 {
      var s := t + r;
      assert s[0] == t[0];
      if |s| >= 3 {
        assert s[..3][0] == t[0];
      }
      assert MarkerIdentLength(s) == 0;
      assert s[1..] == t[1..] + r;
      RewriteMarkersSkips(cfg, t[1..], r);
      assert t == [t[0]] + t[1..];
    } else {
      assert t + r == r;
    }
  }

  /** Text without `@` is returned unchanged */
  lemma RewriteMarkersPlain(cfg: CS2JSettings, s: string)
    ensures '@' !in s ==> RewriteMarkers(cfg, s) == s
  {
    if '@' !in s {
      RewriteMarkersSkips(cfg, s, "");
      assert s + "" == s;
    }
  }

  /** A marker is found at the start of `@m{w}` followed by anything */
  lemma MarkerIdentLengthAt(w: string, r: string)
    requires w != [] && AllWordChars(w)
    ensures MarkerIdentLength("@m{" + w + "}" + r) == |w|
  {
    var s := "@m{" + w + "}" + r;
    assert s[..3] == "@m{";
    assert s[3..] == w + ['}'] + r;
    WordPrefixOfRun(w, '}', r);
    assert s[3 + |w|] == '}';
  }

  lemma RewriteMarkersAtMarker(cfg: CS2JSettings, w: string, r: string)
    requires w != [] && AllWordChars(w)
    ensures RewriteMarkers(cfg, "@m{" + w + "}" + r) == RewriteMethodMarker(cfg, w) + RewriteMarkers(cfg, r)
  {
    var s := "@m{" + w + "}" + r;
    MarkerIdentLengthAt(w, r);
    assert s[3..3 + |w|] == w;
    assert s[4 + |w|..] == r;
  }

  lemma {:induction false} RewriteMarkersTemplate(cfg: CS2JSettings, ps: seq<Piece>, args: seq<string>)
    requires WellFormed(ps) && PlainArgs(args)
    ensures RewriteMarkers(cfg, Render(InstantiateBelow(ps, args, |args|))) == Expand(cfg, ps, args)
    decreases |ps|
  {
    if |ps| == 0 {
    } else {
      var p := ps[0];
      var rest := Render(InstantiateBelow(ps[1..], args, |args|));
      RewriteMarkersTemplate(cfg, ps[1..], args);
      assert WellFormedPiece(p);
      match p
      case Lit(t) =>
        RewriteMarkersSkips(cfg, t, rest);
      case TyVar(j) =>
        if j < |args| {
          assert PlainArg(args[j]);
          RewriteMarkersSkips(cfg, args[j], rest);
        } else {
          RewriteMarkersSkips(cfg, Placeholder(j), rest);
        }
      case MethodRef(w) =>
        RewriteMarkersAtMarker(cfg, w, rest);
    }
  }

  /** A well-formed template with plain type arguments expands to exactly
      what the template means */
  lemma ExpandTemplate(cfg: CS2JSettings, ps: seq<Piece>, args: seq<string>)
    requires WellFormed(ps) && PlainArgs(args)
    ensures RewriteCodeFragment(cfg, Render(ps), Some(args)) == Expand(cfg, ps, args)
  {
    InstantiateNone(ps, args);
    SubstituteFromTemplate(ps, args, 0);
    RewriteMarkersTemplate(cfg, ps, args);
  }

  /** With a null type-argument list only the markers are rewritten, and
      every type variable stays a placeholder */
  lemma ExpandTemplateWithoutTyArgs(cfg: CS2JSettings, ps: seq<Piece>)
    requires WellFormed(ps)
    ensures RewriteCodeFragment(cfg, Render(ps), None) == Expand(cfg, ps, [])
  {
    InstantiateNone(ps, []);
    RewriteMarkersTemplate(cfg, ps, []);
  }

  /** Every type variable of the template has an argument */
  predicate Covers(ps: seq<Piece>, args: seq<string>) {
    forall i :: 0 <= i < |ps| && ps[i].TyVar? ==> ps[i].index < |args|
  }

  /** When the arguments cover the template's type variables, the expansion
      holds neither `$` nor `@`: no placeholder and no marker remains */
  lemma {:induction false} ExpansionIsPlain(cfg: CS2JSettings, ps: seq<Piece>, args: seq<string>)
    requires WellFormed(ps) && PlainArgs(args) && Covers(ps, args)
    ensures '$' !in Expand(cfg, ps, args) && '@' !in Expand(cfg, ps, args)
    decreases |ps|
  {
    if |ps| > 0 {
      assert WellFormedPiece(ps[0]);
      assert Covers(ps[1..], args) by {
        forall i | 0 <= i < |ps[1..]| && ps[1..][i].TyVar? ensures ps[1..][i].index < |args| {
          assert ps[1..][i] == ps[i + 1];
        }
      }
      assert WellFormed(ps[1..]) by {
        forall i | 0 <= i < |ps[1..]| ensures WellFormedPiece(ps[1..][i]) {
          assert ps[1..][i] == ps[i + 1];
        }
      }
      ExpansionIsPlain(cfg, ps[1..], args);
      var head := ExpandPiece(cfg, ps[0], args);
      assert '$' !in head && '@' !in head by {
        match ps[0]
        case Lit(_) =>
        case TyVar(j) => assert PlainArg(args[j]);
        case MethodRef(w) =>
          assert AllWordChars(head);
      }
    }
  }

  /** Code without `$` holds no placeholder, so the type arguments do not
      matter */
  lemma RewriteCodeFragmentIgnoresTyArgs(cfg: CS2JSettings, code: string, tyArgs: Option<seq<string>>)
    requires '$' !in code
    ensures RewriteCodeFragment(cfg, code, tyArgs) == RewriteCodeFragment(cfg, code, None)
  {
    if tyArgs.Some? {
      SubstituteFromPlain(code, tyArgs.value, 0);
    }
  }

  /** Text free of `$` and `@` is left unchanged, whatever the type
      arguments: nothing is substituted twice */
  lemma RewriteCodeFragmentPlainText(cfg: CS2JSettings, code: string, tyArgs: Option<seq<string>>)
    requires '$' !in code && '@' !in code
    ensures RewriteCodeFragment(cfg, code, tyArgs) == code
  {
    RewriteCodeFragmentIgnoresTyArgs(cfg, code, tyArgs);
    RewriteMarkersPlain(cfg, code);
  }

  /** Expanding the output of a fully covered template again changes
      nothing */
  lemma ExpandTwice(cfg: CS2JSettings, ps: seq<Piece>, args: seq<string>, again: Option<seq<string>>)
    requires WellFormed(ps) && PlainArgs(args) && Covers(ps, args)
    ensures RewriteCodeFragment(cfg, RewriteCodeFragment(cfg, Render(ps), Some(args)), again)
            == RewriteCodeFragment(cfg, Render(ps), Some(args))
  {
    ExpandTemplate(cfg, ps, args);
    ExpansionIsPlain(cfg, ps, args);
    RewriteCodeFragmentPlainText(cfg, Expand(cfg, ps, args), again);
  }

  /** The placeholders need not all disappear: a type argument that itself
      holds an earlier placeholder leaves it in the result */
  lemma PlaceholderInArgumentSurvives(cfg: CS2JSettings)
    ensures RewriteCodeFragment(cfg, "${T1}", Some(["A", "${T}"])) == "${T}"
  {
    assert Placeholder(0) == "${T}";
    assert NatToString(1) == "1";
    assert Placeholder(1) == "${T1}";
    ReplaceSkipsOtherPlaceholder(1, 0, "", "A");
    assert Replace("", "${T}", "A") == "";
    assert "${T1}" + "" == "${T1}";
    assert Replace("${T1}", "${T1}", "${T}") == "${T}";
    RewriteMarkersPlain(cfg, "${T}");
  }

  /** A marker is rewritten even where `rewriteMethodName` would keep the
      name: `@m{Wait}` becomes `wait` */
  lemma MarkerIgnoresReservedNames(cfg: CS2JSettings)
    requires cfg.translatorMakeJavaNamingConventions
    ensures RewriteCodeFragment(cfg, "@m{Wait}", None) == "wait"
    ensures RewriteMethodName(cfg, Some("Wait")) == Some("Wait")
  {
    var s := "@m{Wait}";
    assert s[..3] == "@m{";
    assert WordPrefixLength(s[3..]) == 4 by {
      WordPrefixOfRun("Wait", '}', "");
      assert "Wait" + ['}'] + "" == s[3..];
    }
    assert MarkerIdentLength(s) == 4;
    assert s[3..7] == "Wait";
    assert s[8..] == "";
    assert ToJavaConvention(METHOD, Some("Wait")) == "wait";
  }
}
