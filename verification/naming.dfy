/** Naming-convention rewriting: `toJavaConvention`, `rewriteMethodName` and
    `rewriteImportLocation` of the walker. */
module Naming {
  import opened Wrappers
  import opened DotNetText
  import opened Settings

  /** The kinds of C# entity whose names can be rewritten */
  datatype CSharpEntity = METHOD

  /** Lower-cases the first character of a method name and keeps the rest.
      A null or empty name gives the empty string. */
  function ToJavaConvention(kind: CSharpEntity, str: Option<string>): (r: string)
    ensures str.None? || str.value == [] ==> r == []
    ensures str.Some? && str.value != [] ==>
              && |r| == |str.value|
              && r[0] == ToLower(str.value[0])
              && forall i :: 0 < i < |r| ==> r[i] == str.value[i]
  {
    if str.None? || |str.value| == 0 then ""
    else
      match kind
      case METHOD => [ToLower(str.value[0])] + str.value[1..]
  }

  /** A method name already in Java's convention: it does not start with an
      upper-case letter */
  predicate IsJavaMethodName(s: string) {
    |s| == 0 || !IsUpper(s[0])
  }

  /** Every non-empty rewritten method name follows the convention */
  lemma ToJavaConventionFollowsConvention(s: string)
    ensures IsJavaMethodName(ToJavaConvention(METHOD, Some(s)))
  {
  }

  /** The names the rewrite leaves alone are exactly those already in the
      convention */
  lemma ToJavaConventionFixedPoints(s: string)
    requires s != []
    ensures ToJavaConvention(METHOD, Some(s)) == s <==> IsJavaMethodName(s)
  {
  }

  /** Rewriting twice is the same as rewriting once */
  lemma ToJavaConventionIdempotent(s: string)
    ensures ToJavaConvention(METHOD, Some(ToJavaConvention(METHOD, Some(s))))
            == ToJavaConvention(METHOD, Some(s))
  {
  }

  /** Method names that Java's `Object` (or its entry point) owns: a
      rewrite that would land on one of them is undone */
  const ReservedMethodNames: set<string> := {"main", "notify", "notifyAll", "wait"}

  /** The walker's method-name rewrite: identity when the name is null or
      empty or the naming flag is off; otherwise the lower-camel form, unless
      that form is a reserved name, in which case the original is kept. */
  function RewriteMethodName(cfg: CS2JSettings, orig: Option<string>): (r: Option<string>)
    ensures r.Some? <==> orig.Some?
    ensures orig.None? || orig.value == [] || !cfg.translatorMakeJavaNamingConventions ==> r == orig
    ensures cfg.translatorMakeJavaNamingConventions && orig.Some? && orig.value != [] ==>
              && (ToJavaConvention(METHOD, orig) in ReservedMethodNames ==> r == orig)
              && (ToJavaConvention(METHOD, orig) !in ReservedMethodNames ==>
                    r == Some(ToJavaConvention(METHOD, orig)))
  {
    if orig.None? || |orig.value| == 0 then orig
    else if cfg.translatorMakeJavaNamingConventions then
      var replacement := ToJavaConvention(METHOD, orig);
      if replacement == "main" || replacement == "notify"
         || replacement == "notifyAll" || replacement == "wait"
      then orig
      else Some(replacement)
    else orig
  }

  /** The rewrite never produces a reserved name that was not already there */
  lemma RewriteMethodNameNeverIntroducesReserved(cfg: CS2JSettings, orig: string)
    ensures RewriteMethodName(cfg, Some(orig)).value in ReservedMethodNames
            ==> RewriteMethodName(cfg, Some(orig)) == Some(orig)
  {
  }

  /** A name the rewrite changes is one with an upper-case first letter whose
      lower-cased form is not reserved */
  lemma RewriteMethodNameChanges(cfg: CS2JSettings, orig: string)
    ensures RewriteMethodName(cfg, Some(orig)) != Some(orig) <==>
              && cfg.translatorMakeJavaNamingConventions
              && orig != []
              && !IsJavaMethodName(orig)
              && ToJavaConvention(METHOD, Some(orig)) !in ReservedMethodNames
  {
    if orig != [] {
      ToJavaConventionFixedPoints(orig);
    }
  }

  /** Rewriting a method name twice is the same as rewriting it once */
  lemma RewriteMethodNameIdempotent(cfg: CS2JSettings, orig: Option<string>)
    ensures RewriteMethodName(cfg, RewriteMethodName(cfg, orig)) == RewriteMethodName(cfg, orig)
  {
  }

  /** `GetValue` becomes `getValue`, while `Notify` keeps its name because
      `notify` is reserved */
  lemma RewriteMethodNameExamples(cfg: CS2JSettings)
    requires cfg.translatorMakeJavaNamingConventions
    ensures RewriteMethodName(cfg, Some("GetValue")) == Some("getValue")
    ensures RewriteMethodName(cfg, Some("Notify")) == Some("Notify")
    ensures RewriteMethodName(cfg, Some("Wait")) == Some("Wait")
  {
    assert ToJavaConvention(METHOD, Some("GetValue")) == "getValue";
    assert ToJavaConvention(METHOD, Some("Notify")) == "notify";
    assert ToJavaConvention(METHOD, Some("Wait")) == "wait";
  }

  /** The LCC variant of an import: `.LCC.` goes in place of the last `.`.
      Null, empty and dot-free locations, and every location when the naming
      flag is off, are kept. */
  function RewriteImportLocation(cfg: CS2JSettings, orig: Option<string>): (r: Option<string>)
    ensures r.Some? <==> orig.Some?
    ensures (|| orig.None? || orig.value == [] || !cfg.translatorMakeJavaNamingConventions
             || '.' !in orig.value) ==> r == orig
    ensures cfg.translatorMakeJavaNamingConventions && orig.Some? && '.' in orig.value ==>
              var d := LastIndexOf(orig.value, '.');
              && |r.value| == |orig.value| + 4
              && r.value[..d] == orig.value[..d]
              && r.value[d..d + 5] == ".LCC."
              && r.value[d + 5..] == orig.value[d + 1..]
              && '.' !in r.value[d + 5..]
  {
    if orig.None? || |orig.value| == 0 then orig
    else if cfg.translatorMakeJavaNamingConventions then
      var dotLoc := LastIndexOf(orig.value, '.');
      if dotLoc >= 0 then
        var res := orig.value[..dotLoc] + ".LCC." + orig.value[dotLoc + 1..];
        assert res[dotLoc + 5..] == orig.value[dotLoc + 1..];
        assert '.' !in orig.value[dotLoc + 1..] by {
          var tail := orig.value[dotLoc + 1..];
          forall i | 0 <= i < |tail|
            ensures tail[i] != '.'
          {
            assert tail[i] == orig.value[dotLoc + 1 + i];
          }
        }
        Some(res)
      else orig
    else orig
  }

  /** Undoes the LCC rewrite: drops a `.LCC` that stands right before the
      last `.` */
  function StripLccLocation(s: string): string {
    var d := LastIndexOf(s, '.');
    if d >= 4 && s[d - 4..d] == ".LCC" then s[..d - 4] + s[d..] else s
  }

  /** The LCC rewrite loses nothing: stripping `.LCC` gives the location back */
  lemma ImportLocationRoundTrip(cfg: CS2JSettings, orig: string)
    requires cfg.translatorMakeJavaNamingConventions
    ensures StripLccLocation(RewriteImportLocation(cfg, Some(orig)).value) == orig
  {
    var r := RewriteImportLocation(cfg, Some(orig)).value;
    if '.' in orig {
      var d := LastIndexOf(orig, '.');
      assert r[d + 4] == '.';
      assert LastIndexOf(r, '.') == d + 4;
      assert r[d..d + 4] == ".LCC";
      assert r[..d] + r[d + 4..] == orig[..d] + "." + orig[d + 1..];
      assert orig == orig[..d] + [orig[d]] + orig[d + 1..];
    } else {
      assert r == orig;
    }
  }

  /** The LCC rewrite is meant to be applied once: a second application adds
      a second `.LCC` */
  lemma ImportLocationNotIdempotent(cfg: CS2JSettings)
    requires cfg.translatorMakeJavaNamingConventions
    ensures RewriteImportLocation(cfg, Some("a.B")) == Some("a.LCC.B")
    ensures RewriteImportLocation(cfg, Some("a.LCC.B")) == Some("a.LCC.LCC.B")
  {
    assert LastIndexOf("a.B", '.') == 1 by {
      assert "a.B"[2] != '.';
    }
    assert "a.B"[..1] + ".LCC." + "a.B"[2..] == "a.LCC.B";
    assert LastIndexOf("a.LCC.B", '.') == 5 by {
      assert "a.LCC.B"[6] != '.';
    }
    assert "a.LCC.B"[..5] + ".LCC." + "a.LCC.B"[6..] == "a.LCC.LCC.B";
  }
}
