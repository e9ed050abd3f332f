/**
 * generateTypeExtractor of src/core/extractors.mjs: given a (template) type
 * string such as `Tuple<Complex<T>>` and the template parameter `T`, it
 * builds the function that recovers the instantiation type from a value.
 * The built function is represented by the recipe it follows: the
 * top-level typer for the parameter itself, a template's `infer` applied to
 * the extractor of its argument, or failure (the source's `false`).
 */
module Extractors {
  import opened Signatures

  datatype Extractor = TopTyper | Infer(base: string, inner: Extractor) | Fail

  /** An extractor with no failure anywhere inside it. */
  predicate Succeeds(e: Extractor) {
    match e
    case TopTyper => true
    case Infer(_, inner) => Succeeds(inner)
    case Fail => false
  }

  /** A rest parameter: the type starts with "...". */
  predicate IsRest(t: string) {
    |t| >= 3 && t[..3] == "..."
  }

  /** The type of a rest parameter: what follows the "...", trimmed. */
  function RestType(t: string): (r: string)
    requires IsRest(t)
    ensures |r| < |t|
    ensures IsTrimmed(r)
  {
    Trim(t[3..])
  }

  /** Trims the type, then drops one leading "..." (a rest parameter) and trims again. */
  function Normalize(ty: string): (t: string)
    ensures |t| <= |ty|
    ensures IsTrimmed(t)
  {
    var t := Trim(ty);
    if IsRest(t) then RestType(t) else t
  }

  /** type.split('<', 1)[0]: the longest prefix without '<'. */
  function BaseOf(t: string): (b: string)
    ensures |b| <= |t| && b == t[..|b|]
    ensures '<' !in b
    ensures |b| < |t| ==> t[|b|] == '<'
    ensures |b| == |t| <==> '<' !in t
  {
    if t == [] || t[0] == '<' then ""
    else
      var b := [t[0]] + BaseOf(t[1..]);
      assert t == [t[0]] + t[1..];
      b
  }

  /** The argument of Base<Arg>: between the base's '<' and the final character, or empty. */
  function ArgOf(t: string, base: string): string {
    if |base| + 1 <= |t| - 1 then t[|base| + 1..|t| - 1] else ""
  }

  /**
   * The recursion of generateTypeExtractor. The argument of `Base<Arg>` is
   * everything after the base and its '<' except the final character, and
   * empty when the '<' is the last character.
   */
  function Extract(ty: string, param: string, templates: set<string>): (e: Extractor)
    ensures e == Fail || Succeeds(e)
    ensures e == TopTyper <==> Normalize(ty) == param
    ensures e.Infer? ==> '<' in Normalize(ty) && e.base == BaseOf(Normalize(ty)) && e.base in templates
    ensures Normalize(ty) != param && '<' !in Normalize(ty) ==> e == Fail
    ensures Normalize(ty) != param && '<' in Normalize(ty) && BaseOf(Normalize(ty)) !in templates ==> e == Fail
    decreases |ty|
  {
    var t := Normalize(ty);
    if t == param then TopTyper
    else if '<' !in t then Fail
    else
      var base := BaseOf(t);
      if base !in templates then Fail
      else
        var inner := Extract(ArgOf(t, base), param, templates);
        if inner == Fail then Fail else Infer(base, inner)
  }

  /** The argument extractor's failure propagates: the whole result fails. */
  lemma ExtractFailurePropagates(ty: string, param: string, templates: set<string>)
    requires var t := Normalize(ty);
      t != param && '<' in t && BaseOf(t) in templates
      && Extract(ArgOf(t, BaseOf(t)), param, templates) == Fail
    ensures Extract(ty, param, templates) == Fail
  {
  }

  // ---------------------------------------------------------------------
  // Rendering an extractor back to the type string it was built from

  /** A non-empty run of word characters, such as a type or template name. */
  predicate IsName(s: string) {
    s != "" && NoSep(s, IsNonWord)
  }

  /** Every template named in the extractor is a known name. */
  predicate NamesKnown(e: Extractor, templates: set<string>) {
    match e
    case TopTyper => true
    case Infer(base, inner) => IsName(base) && base in templates && NamesKnown(inner, templates)
    case Fail => false
  }

  /** Every template named in the extractor is a name, known or not. */
  predicate WellNamed(e: Extractor) {
    match e
    case TopTyper => true
    case Infer(base, inner) => IsName(base) && WellNamed(inner)
    case Fail => false
  }

  lemma {:induction false} KnownIsWellNamed(e: Extractor, templates: set<string>)
    requires NamesKnown(e, templates)
    ensures WellNamed(e)
  {
    if e.Infer? {
      KnownIsWellNamed(e.inner, templates);
    }
  }

  /** The type string an extractor reads: the parameter, or Base<...> around the inner type. */
  function Render(e: Extractor, param: string): string {
    match e
    case TopTyper => param
    case Infer(base, inner) => base + "<" + Render(inner, param) + ">"
    case Fail => ""
  }

  lemma WordCharNotSpace(c: char)
    requires IsWordChar(c)
    ensures !IsSpace(c) && c != '.' && c != '<'
  {
  }

  lemma {:induction false} BaseOfPrefix(b: string, rest: string)
    requires '<' !in b
    ensures BaseOf(b + "<" + rest) == b
  {
    if b != [] {
      assert (b + "<" + rest)[1..] == b[1..] + "<" + rest;
      BaseOfPrefix(b[1..], rest);
      assert [b[0]] + b[1..] == b;
    }
  }

  lemma RenderShape(e: Extractor, param: string)
    requires IsName(param) && WellNamed(e)
    ensures var s := Render(e, param); |s| > 0 && IsWordChar(s[0]) && (IsWordChar(s[|s| - 1]) || s[|s| - 1] == '>')
    ensures e.Infer? ==> '<' in Render(e, param)
    ensures e.TopTyper? ==> Render(e, param) == param
  {
    if e.Infer? {
      var s := Render(e, param);
      assert s[|e.base|] == '<';
      assert s[0] == e.base[0];
      assert e.base[0] in e.base;
      assert s[|s| - 1] == '>';
    } else {
      assert param[0] in param;
      assert param[|param| - 1] in param;
    }
  }

  /** A rendered type string is already in normal form. */
  lemma RenderNormal(e: Extractor, param: string)
    requires IsName(param) && WellNamed(e)
    ensures Normalize(Render(e, param)) == Render(e, param)
  {
    var s := Render(e, param);
    RenderShape(e, param);
    WordCharNotSpace(s[0]);
    if s[|s| - 1] != '>' {
      WordCharNotSpace(s[|s| - 1]);
    }
    assert IsTrimmed(s) && s[0] != '.';
    NormalizeTrimmed(s);
  }

  /** A trimmed type that does not start with '.' is its own normal form. */
  lemma NormalizeTrimmed(t: string)
    requires IsTrimmed(t) && (t == [] || t[0] != '.')
    ensures Normalize(t) == t
  {
    TrimIdempotent(t);
    NotRest(t);
  }

  lemma NotRest(t: string)
    requires t == [] || t[0] != '.'
    ensures !IsRest(t)
  {
    if |t| >= 3 {
      assert t[..3][0] == t[0];
    }
  }

  /**
   * How Extract reads the rendering of Base<inner>: it is in normal form,
   * is not the parameter, contains '<', has Base as its base, and its
   * argument is the rendering of inner.
   */
  lemma RenderInfer(base: string, inner: Extractor, param: string)
    requires IsName(param) && IsName(base) && WellNamed(inner)
    ensures var s := Render(Infer(base, inner), param);
            Normalize(s) == s && s != param && '<' in s && BaseOf(s) == base &&
            ArgOf(s, base) == Render(inner, param)
  {
    RenderNormal(Infer(base, inner), param);
    NameNoAngle(param);
    NameNoAngle(base);
    TemplateSlices(base, Render(inner, param));
  }

  lemma NameNoAngle(s: string)
    requires IsName(s)
    ensures '<' !in s
  {
    assert NoSep(s, IsNonWord);
  }

  /** The pieces of base + "<" + arg + ">" that Extract takes apart, for a base without '<'. */
  lemma TemplateSlices(base: string, arg: string)
    requires '<' !in base
    ensures var s := base + "<" + arg + ">";
            '<' in s && BaseOf(s) == base && ArgOf(s, base) == arg
  {
    var s := base + "<" + arg + ">";
    assert s[|base|] == '<';
    assert s == base + "<" + (arg + ">");
    BaseOfPrefix(base, arg + ">");
    assert s[|base| + 1..|s| - 1] == arg;
  }

  /**
   * Round trip: reading back the rendering of a well-formed extractor gives
   * that extractor, one template per level of '<' nesting.
   */
  lemma {:induction false} ExtractRender(e: Extractor, param: string, templates: set<string>)
    requires IsName(param) && NamesKnown(e, templates)
    ensures Extract(Render(e, param), param, templates) == e
  {
    match e
    case TopTyper =>
      RenderNormal(e, param);
    case Infer(base, inner) =>
      KnownIsWellNamed(inner, templates);
      RenderInfer(base, inner, param);
      ExtractRender(inner, param, templates);
      ExtractTemplate(Render(e, param), param, templates, base, Render(inner, param));
  }

  /** One level of Extract on a template type whose base is known. */
  lemma ExtractTemplate(ty: string, param: string, templates: set<string>, base: string, arg: string)
    requires var t := Normalize(ty);
             t != param && '<' in t && BaseOf(t) == base && base in templates &&
             ArgOf(t, base) == arg
    ensures Extract(arg, param, templates) != Fail ==> Extract(ty, param, templates) == Infer(base, Extract(arg, param, templates))
  {
  }

  /** A template name that is not known makes the whole extraction fail. */
  lemma ExtractUnknownTemplate(base: string, inner: Extractor, param: string, templates: set<string>)
    requires IsName(param) && IsName(base) && base !in templates && WellNamed(inner)
    ensures Extract(Render(Infer(base, inner), param), param, templates) == Fail
  {
    RenderInfer(base, inner, param);
  }

  /** Worked case: `Tuple<T>` with the template Tuple known is Tuple's infer over the top-level typer. */
  lemma ExtractTupleExample()
    ensures Extract("Tuple<T>", "T", {"Tuple"}) == Infer("Tuple", TopTyper)
  {
    var tt := Infer("Tuple", TopTyper);
    assert IsName("T") && IsName("Tuple");
    assert Render(tt, "T") == "Tuple<T>";
    ExtractRender(tt, "T", {"Tuple"});
  }

  /** Worked case of failure: a plain type other than the parameter. */
  lemma ExtractPlainExample()
    ensures Extract("bigint", "T", {"Tuple"}) == Fail
  {
    assert IsName("bigint");
    RenderNormal(TopTyper, "bigint");
    assert "bigint" != "T" && '<' !in "bigint";
  }
}
