/** Endpoint path templates such as `/users/:id/posts`: their `/`-separated
    components, the dynamic (`:`-prefixed) ones, the OpenAPI rendering
    `:id` -> `{id}` (generators/openapi2/openapi2.js, generators/openapi3/openapi3.js),
    and the two anchored patterns built from a template by textual replacement:
    the mock server's (`:\w+` -> `[^/]+`, mock-server/matcher.js) and the
    verifier's (`:[^/]+` -> `.+`, validation-server/verifications/contract-mismatcher.js).
    Templates are assumed to hold no regular-expression metacharacters, so every
    other template character stands for itself. */
module PathTemplates {
  import opened Util
  import opened Text

  /** `component.startsWith(":")` */
  predicate IsDynamic(component: string) {
    |component| > 0 && component[0] == ':'
  }

  /** `component.startsWith(":") ? `{${component.slice(1)}}` : component` */
  function RenderComponent(component: string): (r: string)
    ensures !IsDynamic(component) ==> r == component
    ensures IsDynamic(component) ==> r == "{" + component[1..] + "}"
  {
    if IsDynamic(component) then "{" + component[1..] + "}" else component
  }

  function RenderComponents(cs: seq<string>): (r: seq<string>)
    ensures |r| == |cs| && forall i :: 0 <= i < |cs| ==> r[i] == RenderComponent(cs[i])
  {
    if |cs| == 0 then [] else [RenderComponent(cs[0])] + RenderComponents(cs[1..])
  }

  /** The path key of an endpoint in an OpenAPI document. */
  function RenderPath(path: string): string {
    Join(RenderComponents(Split(path, '/')), '/')
  }

  /** Splitting a rendered path gives the rendered components of the template,
      one for one: static components unchanged, `:x` as `{x}`. */
  lemma RenderPathComponents(path: string)
    ensures Split(RenderPath(path), '/') == RenderComponents(Split(path, '/'))
  {
    var cs := Split(path, '/');
    var rs := RenderComponents(cs);
    forall i | 0 <= i < |rs| ensures '/' !in rs[i] {
      assert '/' !in cs[i];
      if IsDynamic(cs[i]) {
        assert rs[i] == "{" + cs[i][1..] + "}";
        assert forall k :: 0 <= k < |cs[i][1..]| ==> cs[i][1..][k] == cs[i][k + 1];
      }
    }
    SplitJoin(rs, '/');
  }

  /** A template renders to itself exactly when it has no dynamic component. */
  lemma RenderPathIdentity(path: string)
    ensures RenderPath(path) == path <==> forall i :: 0 <= i < |Split(path, '/')| ==> !IsDynamic(Split(path, '/')[i])
  {
    var cs := Split(path, '/');
    RenderPathComponents(path);
    if forall i :: 0 <= i < |cs| ==> !IsDynamic(cs[i]) {
      assert RenderComponents(cs) == cs;
      JoinSplit(path, '/');
    }
    if RenderPath(path) == path {
      forall i | 0 <= i < |cs| ensures !IsDynamic(cs[i]) {
        assert RenderComponents(cs)[i] == cs[i];
      }
    }
  }

  /** The names of the dynamic components, colon stripped, in order. */
  function DynamicNames(cs: seq<string>): (r: seq<string>)
    ensures |r| <= |cs|
    ensures forall n :: n in r <==> exists i :: 0 <= i < |cs| && IsDynamic(cs[i]) && cs[i][1..] == n
  {
    if |cs| == 0 then []
    else
      var rest := DynamicNames(cs[1..]);
      assert forall i :: 1 <= i < |cs| ==> cs[i] == cs[1..][i - 1];
      assert forall n :: n in rest ==> exists i :: 1 <= i < |cs| && IsDynamic(cs[i]) && cs[i][1..] == n by {
        forall n | n in rest ensures exists i :: 1 <= i < |cs| && IsDynamic(cs[i]) && cs[i][1..] == n {
          var j :| 0 <= j < |cs[1..]| && IsDynamic(cs[1..][j]) && cs[1..][j][1..] == n;
          assert cs[j + 1] == cs[1..][j];
        }
      }
      (if IsDynamic(cs[0]) then [cs[0][1..]] else []) + rest
  }

  /** The dynamic names of a concatenation are the concatenated dynamic names:
      with `DynamicNamesSingle`, the names come in path order, once per component. */
  lemma {:induction false} DynamicNamesAppend(a: seq<string>, b: seq<string>)
    ensures DynamicNames(a + b) == DynamicNames(a) + DynamicNames(b)
  {
    if |a| > 0 {
      assert (a + b)[0] == a[0];
      assert (a + b)[1..] == a[1..] + b;
      DynamicNamesAppend(a[1..], b);
    } else {
      assert a + b == b;
    }
  }

  /** One component contributes its name, colon stripped, exactly when it is dynamic. */
  lemma DynamicNamesSingle(c: string)
    ensures DynamicNames([c]) == if IsDynamic(c) then [c[1..]] else []
  {
    assert [c][1..] == [];
  }

  /** `getDynamicPathComponents(path)` */
  function DynamicPathComponents(path: string): seq<string> {
    DynamicNames(Split(path, '/'))
  }

  /** `path.split("?")[0]`: the path without its query string. */
  function StripQuery(path: string): (r: string)
    ensures '?' !in r
    ensures |r| <= |path| && r == path[..|r|]
    ensures |r| < |path| ==> path[|r|] == '?'
    ensures '?' !in path ==> r == path
  {
    SplitHead(path, '?');
    Split(path, '?')[0]
  }

  /** Which of the two replacements built the pattern. */
  datatype Style =
    | MockStyle      // `:\w+` -> `[^/]+`
    | VerifierStyle  // `:[^/]+` -> `.+`
    | SegmentStyle   // `:[^/]+` -> `[^/]+`: the verifier's names, wildcards kept inside one component

  /** The characters the replaced name consists of. */
  predicate NameChar(style: Style, c: char) {
    match style
    case MockStyle => IsWordChar(c)
    case VerifierStyle | SegmentStyle => c != '/'
  }

  /** ECMAScript line terminators, which `.` does not match. */
  predicate IsLineTerminator(c: char) {
    c == '\n' || c == '\r' || c == '\U{2028}' || c == '\U{2029}'
  }

  /** The characters the replacement's wildcard accepts. */
  predicate WildChar(style: Style, c: char) {
    match style
    case MockStyle | SegmentStyle => c != '/'
    case VerifierStyle => !IsLineTerminator(c)
  }

  /** A pattern: literal characters, and wildcards for one or more characters. */
  datatype PatternItem = Lit(c: char) | Wild

  /** The end of the maximal run of name characters starting at `i`. */
  function NameRun(t: string, i: nat, style: Style): (j: nat)
    requires i <= |t|
    decreases |t| - i
    ensures i <= j <= |t|
    ensures forall k :: i <= k < j ==> NameChar(style, t[k])
    ensures j < |t| ==> !NameChar(style, t[j])
  {
    if i == |t| || !NameChar(style, t[i]) then i else NameRun(t, i + 1, style)
  }

  /** The pattern of a template: every `:` followed by at least one name
      character, together with the longest run of them, becomes a wildcard. */
  function Compile(t: string, style: Style): (p: seq<PatternItem>)
    decreases |t|
  {
    if |t| == 0 then []
    else if t[0] == ':' && |t| > 1 && NameChar(style, t[1]) then
      [Wild] + Compile(t[NameRun(t, 1, style)..], style)
    else [Lit(t[0])] + Compile(t[1..], style)
  }

  /** `new RegExp("^" + pattern + "$").test(s)` */
  predicate Matches(p: seq<PatternItem>, s: string, style: Style)
    decreases |p|
  {
    if |p| == 0 then |s| == 0
    else match p[0]
      case Lit(c) => |s| > 0 && s[0] == c && Matches(p[1..], s[1..], style)
      case Wild =>
        exists k :: 1 <= k <= |s| && (forall j :: 0 <= j < k ==> WildChar(style, s[j])) && Matches(p[1..], s[k..], style)
  }

  /** A template is static when no `:` starts a replaced name. */
  predicate IsStatic(t: string) {
    ':' !in t
  }

  lemma {:induction false} CompileStatic(t: string, style: Style)
    requires IsStatic(t)
    ensures |Compile(t, style)| == |t|
    ensures forall i :: 0 <= i < |t| ==> Compile(t, style)[i] == Lit(t[i])
  {
    if |t| > 0 {
      assert t[0] in t;
      assert forall k :: 0 <= k < |t[1..]| ==> t[1..][k] == t[k + 1];
      CompileStatic(t[1..], style);
    }
  }

  lemma {:induction false} MatchesLiterals(t: string, s: string, style: Style)
    ensures Matches(seq(|t|, i requires 0 <= i < |t| => Lit(t[i])), s, style) <==> s == t
  {
    var p := seq(|t|, i requires 0 <= i < |t| => Lit(t[i]));
    if |t| > 0 {
      assert p[1..] == seq(|t[1..]|, i requires 0 <= i < |t[1..]| => Lit(t[1..][i]));
      MatchesLiterals(t[1..], if |s| > 0 then s[1..] else s, style);
      if |s| > 0 && s[0] == t[0] && s[1..] == t[1..] {
        assert s == [s[0]] + s[1..] && t == [t[0]] + t[1..];
      }
    }
  }

  /** A template without dynamic components matches exactly itself. */
  lemma StaticTemplateMatches(t: string, s: string, style: Style)
    requires IsStatic(t)
    ensures Matches(Compile(t, style), s, style) <==> s == t
  {
    CompileStatic(t, style);
    assert Compile(t, style) == seq(|t|, i requires 0 <= i < |t| => Lit(t[i]));
    MatchesLiterals(t, s, style);
  }

  /** The number of `/` characters. */
  function Slashes(s: string): nat {
    if |s| == 0 then 0 else (if s[0] == '/' then 1 else 0) + Slashes(s[1..])
  }

  /** The number of literal `/` items of a pattern. */
  function LiteralSlashes(p: seq<PatternItem>): nat {
    if |p| == 0 then 0 else (if p[0] == Lit('/') then 1 else 0) + LiteralSlashes(p[1..])
  }

  lemma {:induction false} SlashesAppend(a: string, b: string)
    ensures Slashes(a + b) == Slashes(a) + Slashes(b)
  {
    if |a| > 0 {
      assert (a + b)[0] == a[0] && (a + b)[1..] == a[1..] + b;
      SlashesAppend(a[1..], b);
    } else {
      assert a + b == b;
    }
  }

  lemma {:induction false} SlashesNone(s: string)
    requires forall i :: 0 <= i < |s| ==> s[i] != '/'
    ensures Slashes(s) == 0
  {
    if |s| > 0 {
      SlashesNone(s[1..]);
    }
  }

  /** Compiling keeps every `/` of the template as a literal. */
  lemma {:induction false} CompileSlashes(t: string, style: Style)
    ensures LiteralSlashes(Compile(t, style)) == Slashes(t)
    decreases |t|
  {
    if |t| > 0 {
      if t[0] == ':' && |t| > 1 && NameChar(style, t[1]) {
        var j := NameRun(t, 1, style);
        CompileSlashes(t[j..], style);
        SlashesNone(t[..j]);
        assert t == t[..j] + t[j..];
        SlashesAppend(t[..j], t[j..]);
      } else {
        CompileSlashes(t[1..], style);
      }
    }
  }

  /** Wildcards that stop at `/` never cross one. */
  lemma {:induction false} ConfinedMatchSlashes(p: seq<PatternItem>, s: string, style: Style)
    requires style != VerifierStyle
    requires Matches(p, s, style)
    ensures Slashes(s) == LiteralSlashes(p)
    decreases |p|
  {
    if |p| > 0 {
      match p[0]
      case Lit(c) =>
        ConfinedMatchSlashes(p[1..], s[1..], style);
      case Wild =>
        var k :| 1 <= k <= |s| && (forall j :: 0 <= j < k ==> WildChar(style, s[j])) && Matches(p[1..], s[k..], style);
        ConfinedMatchSlashes(p[1..], s[k..], style);
        SlashesNone(s[..k]);
        assert s == s[..k] + s[k..];
        SlashesAppend(s[..k], s[k..]);
    }
  }

  /** A path that a template's component-confined pattern accepts has as many
      components as the template. */
  lemma ConfinedMatchComponents(t: string, s: string, style: Style)
    requires style != VerifierStyle
    requires Matches(Compile(t, style), s, style)
    ensures Slashes(s) == Slashes(t)
    ensures |Split(s, '/')| == |Split(t, '/')|
  {
    CompileSlashes(t, style);
    ConfinedMatchSlashes(Compile(t, style), s, style);
    SplitSlashes(s);
    SplitSlashes(t);
  }

  /** Splitting on `/` gives one more part than there are slashes. */
  lemma {:induction false} SplitSlashes(s: string)
    ensures |Split(s, '/')| == Slashes(s) + 1
  {
    if |s| > 0 {
      SplitSlashes(s[1..]);
    }
  }

  /** The verifier's wildcard does cross `/`: `/a/:b` matches `/a/x/y`, which the
      mock server's pattern rejects. */
  lemma VerifierWildcardSpansSlash()
    ensures Matches(Compile("/a/:b", VerifierStyle), "/a/x/y", VerifierStyle)
    ensures !Matches(Compile("/a/:b", MockStyle), "/a/x/y", MockStyle)
  {
    VerifierSpanMatches();
    MockSpanRejected();
  }

  lemma VerifierSpanMatches()
    ensures Matches(Compile("/a/:b", VerifierStyle), "/a/x/y", VerifierStyle)
  {
    var t := "/a/:b";
    assert NameRun(t[3..], 1, VerifierStyle) == 2;
    assert Compile(t[3..], VerifierStyle) == [Wild] by {
      assert t[3..][2..] == [];
    }
    assert Compile(t, VerifierStyle) == [Lit('/'), Lit('a'), Lit('/'), Wild] by {
      assert t[1..][1..][1..] == t[3..] && t[1..][1..] == t[2..] && t[1..] == "a/:b";
      assert Compile(t[2..], VerifierStyle) == [Lit('/')] + Compile(t[3..], VerifierStyle);
      assert Compile(t[1..], VerifierStyle) == [Lit('a')] + Compile(t[2..], VerifierStyle);
    }
    var s := "/a/x/y";
    assert Matches([Wild], s[3..], VerifierStyle) by {
      assert Matches([Wild][1..], s[3..][3..], VerifierStyle);
    }
  }

  lemma MockSpanRejected()
    ensures !Matches(Compile("/a/:b", MockStyle), "/a/x/y", MockStyle)
  {
    assert Slashes("/a/:b") == 2;
    assert Slashes("/a/x/y") == 3;
    if Matches(Compile("/a/:b", MockStyle), "/a/x/y", MockStyle) {
      ConfinedMatchComponents("/a/:b", "/a/x/y", MockStyle);
    }
  }

}
