/**
 * The part of Python's `str.format(names=…, mentions=…, today_date=…)` that
 * the announcement uses, following the format-string parser of CPython 3.9
 * and later (`MarkupIterator_next` and `parse_field`).
 *
 * Reading left to right: "{{" and "}}" are literal braces, and a "}" that
 * is not doubled is a ValueError. A "{" starts a replacement field. Its
 * field name runs to the first "}", ":" or "!" that is not inside square
 * brackets; a "{" in the name, or a template that ends first, is a
 * ValueError. After "!" comes one conversion character, whatever it is,
 * then "}" or ":". After ":" comes the format spec, which ends at the "}"
 * that balances the braces opened inside it. A field is handled when it is
 * reached, so the first failing field or malformed brace decides the error.
 *
 * The argument name is the field name up to its first "." or "[". Empty or
 * all digits, it is a positional index (IndexError: there are no positional
 * arguments); otherwise it is looked up among the three keywords, with a
 * KeyError when it is none of them. The lookup comes before any attribute,
 * index, conversion or format spec is applied.
 */
module TemplateFormat {
  import opened Wrappers
  import opened TextUtil

  /** One unit of a parsed template. */
  datatype Segment =
    | Char(c: char)                                                 // a literal character, including an escaped brace
    | Field(name: string, conversion: Option<char>, spec: string)   // a replacement field; an absent spec is ""
    | Malformed                                                     // a lone brace or a field that does not parse: ValueError when reached

  /** The three keyword arguments of the call. */
  datatype FormatArgs = FormatArgs(names: string, mentions: string, todayDate: string)

  /** The outcome of `format`: the text, a KeyError naming the missing key, or any other exception. */
  datatype FormatResult = Formatted(text: string) | KeyError(key: string) | OtherError

  predicate IsBrace(c: char) {
    c == '{' || c == '}'
  }

  predicate NoBraces(s: string) {
    forall i :: 0 <= i < |s| ==> !IsBrace(s[i])
  }

  lemma NoBracesAppend(a: string, b: string)
    requires NoBraces(a) && NoBraces(b)
    ensures NoBraces(a + b)
  {
    assert forall i :: |a| <= i < |a + b| ==> (a + b)[i] == b[i - |a|];
  }

  /** How the field name that starts at some position of the template ends. */
  datatype NameScan =
    | NameEnd(pos: nat, stop: char)   // at a "}", ":" or "!" outside square brackets
    | NameRunsOut                     // the template ends first: ValueError
    | BraceInName                     // a "{" in the field name: ValueError

  /** After a "[", the position of the next "]", or the end of the template. */
  function CloseBracket(t: string, i: nat): (j: nat)
    requires i <= |t|
    ensures i <= j <= |t| && (j < |t| ==> t[j] == ']')
    decreases |t| - i
  {
    if i == |t| || t[i] == ']' then i else CloseBracket(t, i + 1)
  }

  /** Scans a field name from position `i`, skipping bracketed parts whatever they hold. */
  function ScanFieldName(t: string, i: nat): (r: NameScan)
    requires i <= |t|
    ensures r.NameEnd? ==> i <= r.pos < |t| && r.stop == t[r.pos]
                           && (r.stop == '}' || r.stop == ':' || r.stop == '!')
    decreases |t| - i
  {
    if i == |t| then NameRunsOut
    else if t[i] == '{' then BraceInName
    else if t[i] == '[' then ScanFieldName(t, CloseBracket(t, i + 1))
    else if t[i] == '}' || t[i] == ':' || t[i] == '!' then NameEnd(i, t[i])
    else ScanFieldName(t, i + 1)
  }

  /**
   * In a format spec from position `i`, with `depth` braces open, the index
   * of the "}" that closes the field; None when the template ends first.
   */
  function SpecClose(t: string, i: nat, depth: nat): (r: Option<nat>)
    requires i <= |t|
    ensures r.Some? ==> i <= r.value < |t| && t[r.value] == '}'
    decreases |t| - i
  {
    if i == |t| then None
    else if t[i] == '{' then SpecClose(t, i + 1, depth + 1)
    else if t[i] == '}' then (if depth <= 1 then Some(i) else SpecClose(t, i + 1, depth - 1))
    else SpecClose(t, i + 1, depth)
  }

  /** The field whose spec starts at `i`, and the position after its closing "}". */
  function SpecField(t: string, name: string, conversion: Option<char>, i: nat): (r: Option<(Segment, nat)>)
    requires i <= |t|
    ensures r.Some? ==> r.value.0.Field? && i < r.value.1 <= |t|
  {
    match SpecClose(t, i, 1)
    case Some(e) => Some((Field(name, conversion, t[i..e]), e + 1))
    case None => None
  }

  /**
   * The field that starts at `i`, just after its "{", and the position after
   * its closing "}"; None when the field raises a ValueError while parsing.
   */
  function FieldAt(t: string, i: nat): (r: Option<(Segment, nat)>)
    requires i <= |t|
    ensures r.Some? ==> r.value.0.Field? && i < r.value.1 <= |t|
  {
    match ScanFieldName(t, i)
    case BraceInName => None
    case NameRunsOut => None
    case NameEnd(p, stop) =>
      var name := t[i..p];
      if stop == '}' then Some((Field(name, None, ""), p + 1))
      else if stop == ':' then SpecField(t, name, None, p + 1)
      else if p + 1 == |t| then None
      else if p + 2 < |t| && t[p + 2] == '}' then Some((Field(name, Some(t[p + 1]), ""), p + 3))
      else if p + 2 < |t| && t[p + 2] == ':' then SpecField(t, name, Some(t[p + 1]), p + 3)
      else None
  }

  /** Splits a template into segments, stopping at the first malformed brace or field. */
  function Parse(t: string): seq<Segment>
    decreases |t|
  {
    if |t| == 0 then []
    else if t[0] == '{' then
      if |t| >= 2 && t[1] == '{' then [Char('{')] + Parse(t[2..])
      else match FieldAt(t, 1)
        case Some((f, next)) => [f] + Parse(t[next..])
        case None => [Malformed]
    else if t[0] == '}' then
      if |t| >= 2 && t[1] == '}' then [Char('}')] + Parse(t[2..]) else [Malformed]
    else [Char(t[0])] + Parse(t[1..])
  }

  /** The names the announcement passes as keyword arguments. */
  predicate IsPlaceholder(name: string) {
    name == "names" || name == "mentions" || name == "today_date"
  }

  /** An empty or all-digit argument name is a positional index. */
  predicate IsPositional(name: string) {
    forall i :: 0 <= i < |name| ==> IsDigit(name[i])
  }

  /** The argument name: the field name up to its first "." or "[". */
  function ArgName(name: string): (r: string)
    ensures |r| <= |name| && r == name[..|r|]
    ensures forall i :: 0 <= i < |r| ==> r[i] != '.' && r[i] != '['
    ensures |r| < |name| ==> name[|r|] == '.' || name[|r|] == '['
  {
    if |name| == 0 || name[0] == '.' || name[0] == '[' then ""
    else
      var rest := ArgName(name[1..]);
      assert name[..1 + |rest|] == [name[0]] + rest;
      [name[0]] + rest
  }

  /**
   * The value a field stands for, or the exception rendering it raises. A
   * field that names one of the three values and adds an attribute, index,
   * conversion or format spec is reported as an error other than KeyError.
   */
  function FieldValue(name: string, conversion: Option<char>, spec: string, args: FormatArgs): (r: FormatResult)
    ensures r.Formatted? <==> IsPlaceholder(name) && conversion.None? && spec == ""
    ensures r.KeyError? ==> |r.key| <= |name| && r.key == name[..|r.key|]
                            && !IsPlaceholder(r.key) && !IsPositional(r.key)
  {
    if IsPlaceholder(name) && conversion.None? && spec == "" then
      Formatted(if name == "names" then args.names else if name == "mentions" then args.mentions else args.todayDate)
    else
      var arg := ArgName(name);
      if IsPositional(arg) then OtherError
      else if !IsPlaceholder(arg) then KeyError(arg)
      else OtherError
  }

  /** Puts text in front of a successful result; errors pass through. */
  function Prepend(p: string, r: FormatResult): FormatResult {
    if r.Formatted? then Formatted(p + r.text) else r
  }

  /** Renders segments left to right; the first failure is the result. */
  function Eval(segs: seq<Segment>, args: FormatArgs): FormatResult
  {
    if |segs| == 0 then Formatted("")
    else match segs[0]
      case Char(c) => Prepend([c], Eval(segs[1..], args))
      case Field(name, conversion, spec) =>
        var v := FieldValue(name, conversion, spec, args);
        if v.Formatted? then Prepend(v.text, Eval(segs[1..], args)) else v
      case Malformed => OtherError
  }

  /** `template.format(names=…, mentions=…, today_date=…)`. */
  function Format(template: string, args: FormatArgs): FormatResult {
    Eval(Parse(template), args)
  }

  // ---- Properties ----

  /** Each segment renders without error. */
  predicate SegmentsWellFormed(segs: seq<Segment>) {
    forall i :: 0 <= i < |segs| ==>
      !segs[i].Malformed? && (segs[i].Field? ==> IsPlaceholder(segs[i].name) && segs[i].conversion.None? && segs[i].spec == "")
  }

  /** Rendering succeeds exactly when no segment is malformed and every field is one of the three bare names. */
  lemma {:induction false} EvalSucceedsIff(segs: seq<Segment>, args: FormatArgs)
    ensures Eval(segs, args).Formatted? <==> SegmentsWellFormed(segs)
    decreases |segs|
  {
    if |segs| > 0 {
      EvalSucceedsIff(segs[1..], args);
      assert forall i :: 1 <= i < |segs| ==> segs[i] == segs[1..][i - 1];
    }
  }

  /** `key` is a prefix of the field name of one of the fields among `segs`. */
  predicate PrefixOfSomeField(key: string, segs: seq<Segment>) {
    exists i :: 0 <= i < |segs| && segs[i].Field? && |key| <= |segs[i].name| && key == segs[i].name[..|key|]
  }

  /**
   * A KeyError names the argument of a field of the template: a prefix of
   * that field's name that is neither one of the three names nor positional.
   */
  lemma {:induction false} EvalKeyError(segs: seq<Segment>, args: FormatArgs)
    requires Eval(segs, args).KeyError?
    ensures PrefixOfSomeField(Eval(segs, args).key, segs)
    ensures !IsPlaceholder(Eval(segs, args).key) && !IsPositional(Eval(segs, args).key)
    decreases |segs|
  {
    var key := Eval(segs, args).key;
    if segs[0].Char? || (segs[0].Field? && FieldValue(segs[0].name, segs[0].conversion, segs[0].spec, args).Formatted?) {
      EvalKeyError(segs[1..], args);
      var i :| 0 <= i < |segs[1..]| && segs[1..][i].Field? && |key| <= |segs[1..][i].name| && key == segs[1..][i].name[..|key|];
      assert segs[i + 1] == segs[1..][i];
    } else {
      assert segs[0].Field? && |key| <= |segs[0].name| && key == segs[0].name[..|key|];
    }
  }

  lemma FormatSucceedsIff(template: string, args: FormatArgs)
    ensures Format(template, args).Formatted? <==> SegmentsWellFormed(Parse(template))
  {
    EvalSucceedsIff(Parse(template), args);
  }

  lemma FormatKeyError(template: string, args: FormatArgs)
    requires Format(template, args).KeyError?
    ensures PrefixOfSomeField(Format(template, args).key, Parse(template))
    ensures !IsPlaceholder(Format(template, args).key) && !IsPositional(Format(template, args).key)
  {
    EvalKeyError(Parse(template), args);
  }

  /** A character that can appear in a plain argument name. */
  predicate NameChar(c: char) {
    !IsBrace(c) && c != '[' && c != ']' && c != '.' && c != ':' && c != '!'
  }

  predicate SimpleName(s: string) {
    forall i :: 0 <= i < |s| ==> NameChar(s[i])
  }

  lemma PlaceholderSimple(s: string)
    ensures IsPlaceholder(s) ==> SimpleName(s)
  {
  }

  /** A plain name followed by an attribute, an index or nothing is the argument name. */
  lemma {:induction false} ArgNameSimple(name: string, rest: string)
    requires SimpleName(name)
    requires |rest| == 0 || rest[0] == '.' || rest[0] == '['
    ensures ArgName(name + rest) == name
    decreases |name|
  {
    if |name| == 0 {
      assert name + rest == rest;
    } else {
      assert (name + rest)[1..] == name[1..] + rest;
      ArgNameSimple(name[1..], rest);
      assert [name[0]] + name[1..] == name;
    }
  }

  /** A positional name is plain and is none of the three keywords. */
  lemma PositionalSimple(key: string)
    requires IsPositional(key)
    ensures SimpleName(key) && !IsPlaceholder(key)
  {
    if |key| > 0 {
      assert IsDigit(key[0]);
    }
  }

  lemma ArgNameOfSimple(name: string)
    ensures SimpleName(name) ==> ArgName(name) == name
  {
    if SimpleName(name) {
      ArgNameSimple(name, "");
      assert name + "" == name;
    }
  }

  /**
   * A field whose argument name is not one of the three keywords fails on
   * the lookup, whatever attribute, index, conversion or format spec
   * follows it: an IndexError for a positional name, a KeyError naming the
   * argument otherwise.
   */
  lemma UnknownNameLookup(name: string, chain: string, conversion: Option<char>, spec: string, args: FormatArgs)
    requires SimpleName(name) && !IsPlaceholder(name)
    requires |chain| == 0 || chain[0] == '.' || chain[0] == '['
    ensures FieldValue(name + chain, conversion, spec, args) == if IsPositional(name) then OtherError else KeyError(name)
  {
    ArgNameSimple(name, chain);
    ChainNotPlaceholder(name, chain);
  }

  lemma ChainNotPlaceholder(name: string, chain: string)
    requires !IsPlaceholder(name)
    requires |chain| == 0 || chain[0] == '.' || chain[0] == '['
    ensures !IsPlaceholder(name + chain)
  {
    if |chain| == 0 {
      assert name + chain == name;
    } else {
      assert (name + chain)[|name|] == chain[0];
      PlaceholderSimple(name + chain);
    }
  }

  /** A field name the scan reads to its end: no brace, ":" or "!", and each "[" closed by a later "]". */
  predicate NamePlain(s: string) {
    && (forall k :: 0 <= k < |s| ==> !IsBrace(s[k]) && s[k] != ':' && s[k] != '!')
    && (forall k :: 0 <= k < |s| && s[k] == '[' ==> exists j :: k < j < |s| && s[j] == ']')
  }

  lemma SimplePlain(s: string)
    requires SimpleName(s)
    ensures NamePlain(s)
  {
  }

  lemma {:induction false} CloseBracketWithin(t: string, a: nat, j: nat)
    requires a <= j < |t| && t[j] == ']'
    ensures CloseBracket(t, a) <= j
    decreases j - a
  {
    if a < j && t[a] != ']' {
      CloseBracketWithin(t, a + 1, j);
    }
  }

  /** The name scan stops at the first stopping character, passing over closed brackets. */
  lemma {:induction false} ScanToStop(t: string, i: nat, e: nat)
    requires i <= e < |t| && (t[e] == '}' || t[e] == ':' || t[e] == '!')
    requires forall k :: i <= k < e ==> !IsBrace(t[k]) && t[k] != ':' && t[k] != '!'
    requires forall k :: i <= k < e && t[k] == '[' ==> exists j :: k < j < e && t[j] == ']'
    ensures ScanFieldName(t, i) == NameEnd(e, t[e])
    decreases e - i
  {
    if i < e {
      if t[i] == '[' {
        var j :| i < j < e && t[j] == ']';
        CloseBracketWithin(t, i + 1, j);
        ScanToStop(t, CloseBracket(t, i + 1), e);
      } else {
        ScanToStop(t, i + 1, e);
      }
    }
  }

  /** Without a brace, ":" or "!", the name scan runs to the end of the template. */
  lemma {:induction false} ScanRunsOut(t: string, i: nat)
    requires i <= |t|
    requires forall k :: i <= k < |t| ==> !IsBrace(t[k]) && t[k] != ':' && t[k] != '!'
    ensures ScanFieldName(t, i) == NameRunsOut
    decreases |t| - i
  {
    if i < |t| {
      if t[i] == '[' {
        ScanRunsOut(t, CloseBracket(t, i + 1));
      } else {
        ScanRunsOut(t, i + 1);
      }
    }
  }

  /** The search for the end of a spec passes over brace-free text. */
  lemma {:induction false} SpecCloseSkip(t: string, i: nat, j: nat, depth: nat)
    requires i <= j <= |t|
    requires forall k :: i <= k < j ==> !IsBrace(t[k])
    ensures SpecClose(t, i, depth) == SpecClose(t, j, depth)
    decreases j - i
  {
    if i < j {
      SpecCloseSkip(t, i + 1, j, depth);
    }
  }

  /** What stands between a field's name and its spec: "!c" for a conversion, then ":" when there is a spec. */
  function FieldMid(conversion: Option<char>, spec: string): string {
    (match conversion case Some(c) => ['!', c] case None => "") + (if spec == "" then "" else ":")
  }

  /** The text of a field: "{name}", "{name!c}", "{name:spec}" or "{name!c:spec}". */
  function FieldText(name: string, conversion: Option<char>, spec: string): string {
    "{" + name + FieldMid(conversion, spec) + spec + "}"
  }

  /** A spec of brace-free text followed by "}" closes the field after it. */
  lemma SpecAt(t: string, i: nat, spec: string)
    requires i + |spec| < |t| && t[i..i + |spec|] == spec && NoBraces(spec) && t[i + |spec|] == '}'
    ensures SpecClose(t, i, 1) == Some(i + |spec|)
  {
    assert forall k :: i <= k < i + |spec| ==> t[k] == spec[k - i];
    SpecCloseSkip(t, i, i + |spec|, 1);
  }

  /** The name scan of a field whose name is plain stops right after the name. */
  lemma ScanPlainName(t: string, name: string)
    requires NamePlain(name) && 1 + |name| < |t| && t[1..1 + |name|] == name
    requires t[1 + |name|] == '}' || t[1 + |name|] == ':' || t[1 + |name|] == '!'
    ensures ScanFieldName(t, 1) == NameEnd(1 + |name|, t[1 + |name|])
  {
    var e := 1 + |name|;
    assert forall k :: 1 <= k < e ==> t[k] == t[1..e][k - 1] == name[k - 1];
    forall k | 1 <= k < e && t[k] == '['
      ensures exists j :: k < j < e && t[j] == ']'
    {
      assert name[k - 1] == '[';
      var j :| k - 1 < j < |name| && name[j] == ']';
      assert t[j + 1] == ']';
    }
    ScanToStop(t, 1, e);
  }

  /** A printed field with a plain name and a brace-free spec is read back as that field. */
  lemma FieldAtText(name: string, conversion: Option<char>, spec: string, rest: string)
    requires NamePlain(name) && NoBraces(spec)
    ensures var t := FieldText(name, conversion, spec) + rest;
            FieldAt(t, 1) == Some((Field(name, conversion, spec), |FieldText(name, conversion, spec)|))
  {
    match conversion
    case None =>
      if spec == "" {
        FieldAtBare(name, rest);
      } else {
        FieldAtSpec(name, spec, rest);
      }
    case Some(c) =>
      if spec == "" {
        FieldAtConverted(name, c, rest);
      } else {
        FieldAtConvertedSpec(name, c, spec, rest);
      }
  }

  /** Where the parts of a printed field sit. */
  lemma Layout(name: string, conversion: Option<char>, spec: string, rest: string)
    ensures var t := FieldText(name, conversion, spec) + rest;
            var mid := FieldMid(conversion, spec);
            var p := 1 + |name|;
            var e := p + |mid| + |spec|;
            && |FieldText(name, conversion, spec)| == e + 1 && |t| == e + 1 + |rest|
            && t[0] == '{' && t[1..p] == name && t[p..p + |mid|] == mid && t[p + |mid|..e] == spec
            && t[e] == '}' && t[e + 1..] == rest
  {
    var mid := FieldMid(conversion, spec);
    var t := FieldText(name, conversion, spec) + rest;
    var p := 1 + |name|;
    assert t == "{" + name + (mid + spec + "}" + rest);
    assert t[p..] == mid + spec + "}" + rest;
    assert t[p + |mid|..] == spec + "}" + rest;
    assert t[p + |mid| + |spec|..] == "}" + rest;
  }

  lemma FieldAtBare(name: string, rest: string)
    requires NamePlain(name)
    ensures FieldAt(FieldText(name, None, "") + rest, 1) == Some((Field(name, None, ""), |FieldText(name, None, "")|))
  {
    var t := FieldText(name, None, "") + rest;
    Layout(name, None, "", rest);
    ScanPlainName(t, name);
  }

  lemma FieldAtSpec(name: string, spec: string, rest: string)
    requires NamePlain(name) && NoBraces(spec) && spec != ""
    ensures FieldAt(FieldText(name, None, spec) + rest, 1) == Some((Field(name, None, spec), |FieldText(name, None, spec)|))
  {
    Layout(name, None, spec, rest);
    SpecFieldIn(FieldText(name, None, spec) + rest, name, spec);
  }

  /** In a text laid out as "{" + name + ":" + spec + "}" + …, the field at 1. */
  lemma SpecFieldIn(t: string, name: string, spec: string)
    requires NamePlain(name) && NoBraces(spec)
    requires var p := 1 + |name|;
             p + 1 + |spec| < |t| && t[1..p] == name && t[p..p + 1] == ":"
             && t[p + 1..p + 1 + |spec|] == spec && t[p + 1 + |spec|] == '}'
    ensures FieldAt(t, 1) == Some((Field(name, None, spec), |name| + |spec| + 3))
  {
    var p := 1 + |name|;
    assert t[p] == t[p..p + 1][0] == ':';
    ScanPlainName(t, name);
    SpecAt(t, p + 1, spec);
    FieldAtSpecStop(t, p, p + 1 + |spec|);
  }

  /** How a field that stops at ":" ends. */
  lemma FieldAtSpecStop(t: string, p: nat, e: nat)
    requires p < |t| && ScanFieldName(t, 1) == NameEnd(p, ':') && SpecClose(t, p + 1, 1) == Some(e)
    ensures FieldAt(t, 1) == Some((Field(t[1..p], None, t[p + 1..e]), e + 1))
  {
  }

  lemma FieldAtConverted(name: string, c: char, rest: string)
    requires NamePlain(name)
    ensures FieldAt(FieldText(name, Some(c), "") + rest, 1) == Some((Field(name, Some(c), ""), |FieldText(name, Some(c), "")|))
  {
    var t := FieldText(name, Some(c), "") + rest;
    Layout(name, Some(c), "", rest);
    var p := 1 + |name|;
    assert FieldMid(Some(c), "") == ['!', c];
    assert t[p] == t[p..p + 2][0] == '!' && t[p + 1] == t[p..p + 2][1] == c;
    ScanPlainName(t, name);
  }

  lemma FieldAtConvertedSpec(name: string, c: char, spec: string, rest: string)
    requires NamePlain(name) && NoBraces(spec) && spec != ""
    ensures FieldAt(FieldText(name, Some(c), spec) + rest, 1) == Some((Field(name, Some(c), spec), |FieldText(name, Some(c), spec)|))
  {
    Layout(name, Some(c), spec, rest);
    assert FieldMid(Some(c), spec) == ['!', c, ':'];
    ConvertedSpecFieldIn(FieldText(name, Some(c), spec) + rest, name, c, spec);
  }

  /** In a text laid out as "{" + name + "!" + c + ":" + spec + "}" + …, the field at 1. */
  lemma ConvertedSpecFieldIn(t: string, name: string, c: char, spec: string)
    requires NamePlain(name) && NoBraces(spec)
    requires var p := 1 + |name|;
             p + 3 + |spec| < |t| && t[1..p] == name && t[p..p + 3] == ['!', c, ':']
             && t[p + 3..p + 3 + |spec|] == spec && t[p + 3 + |spec|] == '}'
    ensures FieldAt(t, 1) == Some((Field(name, Some(c), spec), |name| + |spec| + 5))
  {
    var p := 1 + |name|;
    assert t[p] == t[p..p + 3][0] == '!' && t[p + 1] == t[p..p + 3][1] == c && t[p + 2] == t[p..p + 3][2] == ':';
    ScanPlainName(t, name);
    SpecAt(t, p + 3, spec);
    FieldAtConvertedSpecStop(t, p, p + 3 + |spec|);
  }

  /** How a field that stops at "!" and then ":" ends. */
  lemma FieldAtConvertedSpecStop(t: string, p: nat, e: nat)
    requires p + 2 < |t| && ScanFieldName(t, 1) == NameEnd(p, '!') && t[p + 2] == ':'
    requires SpecClose(t, p + 3, 1) == Some(e)
    ensures FieldAt(t, 1) == Some((Field(t[1..p], Some(t[p + 1]), t[p + 3..e]), e + 1))
  {
  }

  /** Printing a field and parsing it back gives the field: parsing inverts `FieldText`. */
  lemma ParseFieldText(name: string, conversion: Option<char>, spec: string, rest: string)
    requires NamePlain(name) && NoBraces(spec)
    ensures Parse(FieldText(name, conversion, spec) + rest) == [Field(name, conversion, spec)] + Parse(rest)
  {
    var t := FieldText(name, conversion, spec) + rest;
    Layout(name, conversion, spec, rest);
    assert t[1] != '{' by {
      var mid := FieldMid(conversion, spec);
      if |name| > 0 {
        assert t[1] == t[1..1 + |name|][0] == name[0];
      } else if |mid| > 0 {
        assert t[1] == t[1..1 + |mid|][0] == mid[0];
      } else {
        assert t[1] == '}';
      }
    }
    FieldAtText(name, conversion, spec, rest);
  }

  /** "{name}" with a plain name parses to one bare field. */
  lemma ParseField(name: string, rest: string)
    requires NamePlain(name)
    ensures Parse("{" + name + "}" + rest) == [Field(name, None, "")] + Parse(rest)
  {
    assert FieldText(name, None, "") == "{" + name + "}";
    ParseFieldText(name, None, "", rest);
  }

  /** A "{" whose field never reaches a "}", ":" or "!" is a ValueError. */
  lemma UnclosedFieldMalformed(s: string)
    requires forall k :: 0 <= k < |s| ==> !IsBrace(s[k]) && s[k] != ':' && s[k] != '!'
    ensures Parse("{" + s) == [Malformed]
  {
    var t := "{" + s;
    assert forall k :: 1 <= k < |t| ==> t[k] == s[k - 1];
    ScanRunsOut(t, 1);
    FieldFails(t);
  }

  /** A "{" whose field does not parse makes the rest of the template malformed. */
  lemma FieldFails(t: string)
    requires 0 < |t| && t[0] == '{' && (|t| < 2 || t[1] != '{')
    requires ScanFieldName(t, 1).NameRunsOut? || ScanFieldName(t, 1).BraceInName?
    ensures Parse(t) == [Malformed]
  {
  }

  /** Braces inside square brackets belong to the field name and do not end the field. */
  lemma BracketHidesBraces(args: FormatArgs)
    ensures Format("{x[{]}", args) == KeyError("x")
    ensures Format("{x[}", args) == OtherError
  {
    var t := "{x[{]}";
    assert CloseBracket(t, 3) == 4;
    assert ScanFieldName(t, 1) == NameEnd(5, '}');
    assert t[1..5] == "x[{]" && t[6..] == "";
    assert FieldAt(t, 1) == Some((Field("x[{]", None, ""), 6));
    assert Parse(t) == [Field("x[{]", None, "")];
    assert ArgName("x[{]") == "x";
    var u := "{x[}";
    assert CloseBracket(u, 3) == 4;
    assert ScanFieldName(u, 1) == NameRunsOut;
    assert Parse(u) == [Malformed];
  }

  /** The character after "!" is the conversion even when it is a brace. */
  lemma ConversionTakesAnyChar(args: FormatArgs)
    ensures Format("{x!}}", args) == KeyError("x")
  {
    var t := "{x!}}";
    assert ScanFieldName(t, 1) == NameEnd(2, '!');
    assert t[1..2] == "x" && t[3] == '}' && t[4] == '}' && t[5..] == "";
    assert FieldAt(t, 1) == Some((Field("x", Some('}'), ""), 5));
    assert Parse(t) == [Field("x", Some('}'), "")];
    ArgNameOfSimple("x");
  }

  /** The literal segments of a brace-free text. */
  function Chars(s: string): (r: seq<Segment>)
    ensures |r| == |s|
  {
    if |s| == 0 then [] else [Char(s[0])] + Chars(s[1..])
  }

  lemma {:induction false} EvalChars(s: string, args: FormatArgs)
    ensures Eval(Chars(s), args) == Formatted(s)
    decreases |s|
  {
    if |s| > 0 {
      EvalChars(s[1..], args);
      assert [s[0]] + s[1..] == s;
    }
  }

  /** Brace-free text parses to its own characters. */
  lemma {:induction false} ParseLiteral(s: string, rest: string)
    requires NoBraces(s)
    ensures Parse(s + rest) == Chars(s) + Parse(rest)
    decreases |s|
  {
    if |s| > 0 {
      assert (s + rest)[1..] == s[1..] + rest;
      ParseLiteral(s[1..], rest);
    } else {
      assert s + rest == rest;
    }
  }

  /** Brace-free text followed by one field: the text, then the field's value, then the rest. */
  lemma FormatTextField(lit: string, name: string, rest: string, args: FormatArgs)
    requires NoBraces(lit) && NamePlain(name)
    ensures Format(lit + ("{" + name + "}" + rest), args)
            == Prepend(lit, Then(FieldValue(name, None, "", args), Format(rest, args)))
  {
    var tail := "{" + name + "}" + rest;
    ParseLiteral(lit, tail);
    ParseField(name, rest);
    var segs := [Field(name, None, "")] + Parse(rest);
    assert segs[0] == Field(name, None, "") && segs[1..] == Parse(rest);
    EvalAppend(Chars(lit), segs, args);
    EvalChars(lit, args);
  }

  /** A template that is one printed field renders as that field's value. */
  lemma FormatSingleField(name: string, conversion: Option<char>, spec: string, args: FormatArgs)
    requires NamePlain(name) && NoBraces(spec)
    ensures Format(FieldText(name, conversion, spec), args) == FieldValue(name, conversion, spec, args)
  {
    var t := FieldText(name, conversion, spec);
    var f := Field(name, conversion, spec);
    ParseFieldText(name, conversion, spec, "");
    assert t + "" == t;
    assert Parse("") == [];
    assert Parse(t) == [f];
    assert [f][1..] == [];
    var v := FieldValue(name, conversion, spec, args);
    if v.Formatted? {
      assert Eval([f][1..], args) == Formatted("");
      assert v.text + "" == v.text;
    }
  }

  /** "{names}" formats to the names argument. */
  lemma NamesFieldFormats(args: FormatArgs)
    ensures Format("{names}", args) == Formatted(args.names)
  {
    assert "{names}" == "{" + "names" + "}";
    PlaceholderFieldFormats("names", args);
  }

  /** "{mentions}" formats to the mentions argument. */
  lemma MentionsFieldFormats(args: FormatArgs)
    ensures Format("{mentions}", args) == Formatted(args.mentions)
  {
    assert "{mentions}" == "{" + "mentions" + "}";
    PlaceholderFieldFormats("mentions", args);
  }

  /** "{today_date}" formats to the date argument. */
  lemma TodayDateFieldFormats(args: FormatArgs)
    ensures Format("{today_date}", args) == Formatted(args.todayDate)
  {
    assert "{today_date}" == "{" + "today_date" + "}";
    PlaceholderFieldFormats("today_date", args);
  }

  /** A bare field naming a keyword argument formats to that argument's value. */
  lemma PlaceholderFieldFormats(name: string, args: FormatArgs)
    requires IsPlaceholder(name)
    ensures Format("{" + name + "}", args)
            == Formatted(if name == "names" then args.names else if name == "mentions" then args.mentions else args.todayDate)
  {
    PlaceholderSimple(name);
    SimplePlain(name);
    assert FieldText(name, None, "") == "{" + name + "}";
    FormatSingleField(name, None, "", args);
  }

  /** Rendering a concatenation of segments renders the parts in order. */
  lemma {:induction false} EvalAppend(a: seq<Segment>, b: seq<Segment>, args: FormatArgs)
    ensures Eval(a + b, args) == Then(Eval(a, args), Eval(b, args))
    decreases |a|
  {
    if |a| == 0 {
      assert a + b == b;
    } else {
      assert (a + b)[0] == a[0] && (a + b)[1..] == a[1..] + b;
      EvalAppend(a[1..], b, args);
      var rest := Eval(a[1..], args);
      match a[0]
      case Char(c) =>
        ThenPrepend([c], rest, Eval(b, args));
      case Field(name, conversion, spec) =>
        if FieldValue(name, conversion, spec, args).Formatted? {
          ThenPrepend(FieldValue(name, conversion, spec, args).text, rest, Eval(b, args));
        }
      case Malformed =>
    }
  }

  /** Sequencing two renderings: the second counts only when the first succeeded. */
  function Then(first: FormatResult, second: FormatResult): FormatResult {
    if first.Formatted? then Prepend(first.text, second) else first
  }

  lemma ThenPrepend(p: string, r: FormatResult, s: FormatResult)
    ensures Prepend(p, Then(r, s)) == Then(Prepend(p, r), s)
  {
    if r.Formatted? && s.Formatted? {
      assert p + (r.text + s.text) == (p + r.text) + s.text;
    }
  }

  /** Doubles every brace, so that `format` reproduces the text literally. */
  function Escape(s: string): string
  {
    if |s| == 0 then ""
    else (if IsBrace(s[0]) then [s[0], s[0]] else [s[0]]) + Escape(s[1..])
  }

  lemma {:induction false} ParseEscape(s: string)
    ensures Parse(Escape(s)) == Chars(s)
    decreases |s|
  {
    if |s| > 0 {
      ParseEscape(s[1..]);
      var t := Escape(s);
      if IsBrace(s[0]) {
        assert t[2..] == Escape(s[1..]);
      } else {
        assert t[1..] == Escape(s[1..]);
      }
    }
  }

  /** Escaping then formatting gives back the original text, whatever it contains. */
  lemma EscapeRoundTrip(s: string, args: FormatArgs)
    ensures Format(Escape(s), args) == Formatted(s)
  {
    ParseEscape(s);
    EvalChars(s, args);
  }
}
