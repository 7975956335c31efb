/**
 * The announcement text: celebrant names in bold, resolved mentions, and the
 * community's template (or the default one), with the "<name>" token replaced
 * literally before `str.format` runs. Because the names are spliced in before
 * formatting, braces inside a name are read as template syntax.
 */
module Renderer {
  import opened Wrappers
  import opened TextUtil
  import opened TemplateFormat

  /** DEFAULT_ANNOUNCE_MESSAGE, in three literal pieces around its fields. */
  const DefaultLead: string := "🎉 今日 "
  const DefaultMiddle: string := " は "
  const DefaultTail: string := " さんの誕生日です！おめでとうございます！ "
  const DefaultTemplate: string :=
    DefaultLead + "{today_date}" + DefaultMiddle + "{names}" + DefaultTail + "{mentions}"

  /** The literal token replaced by the bold names before formatting. */
  const NameToken: string := "<name>"

  /** What formatting the default template yields for the three values. */
  function DefaultText(args: FormatArgs): string {
    DefaultLead + args.todayDate + DefaultMiddle + args.names + DefaultTail + args.mentions
  }

  function BoldAll(names: seq<string>): (r: seq<string>)
    ensures |r| == |names|
    ensures forall i :: 0 <= i < |names| ==> r[i] == "**" + names[i] + "**"
  {
    if |names| == 0 then [] else ["**" + names[0] + "**"] + BoldAll(names[1..])
  }

  /** `', '.join(f"**{n}**" for n in names)`. */
  function NamesText(names: seq<string>): string {
    Join(BoldAll(names), ", ")
  }

  /** `' '.join(mentions) + (' ' if mentions else '')`. */
  function MentionsText(mentions: seq<string>): (r: string)
    ensures r == "" <==> |mentions| == 0
    ensures |mentions| > 0 ==> r[|r| - 1] == ' ' && |r| == TotalLength(mentions) + |mentions|
  {
    if |mentions| == 0 then ""
    else
      JoinLength(mentions, " ");
      Join(mentions, " ") + " "
  }

  /** `s.replace("<name>", names)`: every occurrence, left to right, without overlap. */
  function ReplaceName(s: string, names: string): string
    decreases |s|
  {
    if |s| < |NameToken| then s
    else if s[..|NameToken|] == NameToken then names + ReplaceName(s[|NameToken|..], names)
    else [s[0]] + ReplaceName(s[1..], names)
  }

  /** The token occurs in `s` at position `i`. */
  predicate TokenAt(s: string, i: int) {
    0 <= i && i + |NameToken| <= |s| && s[i..i + |NameToken|] == NameToken
  }

  ghost predicate ContainsNameToken(s: string) {
    exists i :: TokenAt(s, i)
  }

  predicate NoAngle(s: string) {
    forall i :: 0 <= i < |s| ==> s[i] != '<'
  }

  /** The template a community uses: its own when set and non-empty, else the default. */
  function ChooseTemplate(template: Option<string>): string {
    if template.Some? && template.value != "" then template.value else DefaultTemplate
  }

  datatype RenderResult = Rendered(text: string) | Raised

  /**
   * The message for one community's celebrants. A KeyError while formatting
   * falls back to the default template with the same values; any other
   * formatting error is not caught and escapes.
   */
  function Render(template: Option<string>, names: seq<string>, mentions: seq<string>, today: string): (r: RenderResult)
    ensures var args := FormatArgs(NamesText(names), MentionsText(mentions), today);
            var result := Format(ReplaceName(ChooseTemplate(template), args.names), args);
            && (template.None? || template == Some("") ==> r == Rendered(DefaultText(args)))
            && (result.KeyError? ==> r == Rendered(DefaultText(args)))
            && (r.Raised? <==> result.OtherError?)
            && (result.Formatted? ==> r == Rendered(result.text))
  {
    var args := FormatArgs(NamesText(names), MentionsText(mentions), today);
    DefaultTemplateFormats(args);
    DefaultTemplateHasNoToken(args.names);
    match Format(ReplaceName(ChooseTemplate(template), args.names), args)
    case Formatted(text) => Rendered(text)
    case KeyError(_) =>
      var fallback := Format(DefaultTemplate, args);
      if fallback.Formatted? then Rendered(fallback.text) else Raised
    case OtherError => Raised
  }

  // ---- Properties ----

  /** Text without the token is left alone. */
  lemma {:induction false} ReplaceNameAbsent(s: string, names: string)
    requires !ContainsNameToken(s)
    ensures ReplaceName(s, names) == s
    decreases |s|
  {
    if |s| >= |NameToken| {
      assert !TokenAt(s, 0);
      assert !ContainsNameToken(s[1..]) by {
        forall i | TokenAt(s[1..], i)
          ensures false
        {
          assert s[1..][i..i + |NameToken|] == s[i + 1..i + 1 + |NameToken|];
          assert TokenAt(s, i + 1);
        }
      }
      ReplaceNameAbsent(s[1..], names);
      assert [s[0]] + s[1..] == s;
    }
  }

  /** Replacing the token by itself changes nothing. */
  lemma {:induction false} ReplaceNameByItself(s: string)
    ensures ReplaceName(s, NameToken) == s
    decreases |s|
  {
    if |s| >= |NameToken| {
      if s[..|NameToken|] == NameToken {
        ReplaceNameByItself(s[|NameToken|..]);
        assert s[..|NameToken|] + s[|NameToken|..] == s;
      } else {
        ReplaceNameByItself(s[1..]);
        assert [s[0]] + s[1..] == s;
      }
    }
  }

  /** A prefix without '<' is copied unchanged and the replacement carries on after it. */
  lemma {:induction false} ReplaceNameSkip(a: string, b: string, names: string)
    requires NoAngle(a)
    ensures ReplaceName(a + b, names) == a + ReplaceName(b, names)
    decreases |a|
  {
    if |a| == 0 {
      assert a + b == b;
    } else {
      var s := a + b;
      if |s| >= |NameToken| {
        assert s[..|NameToken|][0] == a[0];
      }
      assert s[1..] == a[1..] + b;
      ReplaceNameSkip(a[1..], b, names);
      assert [a[0]] + a[1..] == a;
    }
  }

  /** A '<'-free text followed by a '<'-free field is copied, and the replacement carries on after it. */
  lemma ReplaceNameTextField(lit: string, name: string, rest: string, names: string)
    requires NoAngle(lit) && NoAngle(name)
    ensures ReplaceName(lit + ("{" + name + "}" + rest), names) == lit + ("{" + name + "}" + ReplaceName(rest, names))
  {
    var field := "{" + name + "}";
    assert NoAngle(field);
    assert field + rest == "{" + name + "}" + rest;
    ReplaceNameSkip(lit, field + rest, names);
    ReplaceNameSkip(field, rest, names);
  }

  /** The default template in the right-nested shape the piecewise lemmas use. */
  lemma DefaultTemplateShape()
    ensures DefaultTemplate
            == DefaultLead + ("{" + "today_date" + "}"
               + (DefaultMiddle + ("{" + "names" + "}"
               + (DefaultTail + ("{" + "mentions" + "}" + "")))))
  {
  }

  lemma DefaultPiecesPlain()
    ensures NoAngle(DefaultLead) && NoAngle(DefaultMiddle) && NoAngle(DefaultTail)
    ensures NoBraces(DefaultLead) && NoBraces(DefaultMiddle) && NoBraces(DefaultTail)
  {
  }

  lemma FieldNamesPlain()
    ensures NoAngle("today_date") && NoAngle("names") && NoAngle("mentions")
    ensures SimpleName("today_date") && SimpleName("names") && SimpleName("mentions")
  {
  }

  /** One piece of the default template: its text, a field that formats, and a rest that formats. */
  lemma FormatPiece(lit: string, name: string, value: string, rest: string, restText: string, args: FormatArgs)
    requires NoBraces(lit) && SimpleName(name)
    requires FieldValue(name, None, "", args) == Formatted(value) && Format(rest, args) == Formatted(restText)
    ensures Format(lit + ("{" + name + "}" + rest), args) == Formatted(lit + (value + restText))
  {
    SimplePlain(name);
    FormatTextField(lit, name, rest, args);
  }

  /** The default template holds no "<name>" token, so the replacement leaves it as it is. */
  lemma DefaultTemplateHasNoToken(names: string)
    ensures ReplaceName(DefaultTemplate, names) == DefaultTemplate
  {
    DefaultTemplateShape();
    DefaultPiecesPlain();
    FieldNamesPlain();
    var r3 := "";
    var r2 := DefaultTail + ("{" + "mentions" + "}" + r3);
    var r1 := DefaultMiddle + ("{" + "names" + "}" + r2);
    var r0 := DefaultLead + ("{" + "today_date" + "}" + r1);
    ReplaceNameTextField(DefaultTail, "mentions", r3, names);
    ReplaceNameTextField(DefaultMiddle, "names", r2, names);
    ReplaceNameTextField(DefaultLead, "today_date", r1, names);
  }

  /** Formatting the default template never fails and yields `DefaultText`. */
  lemma DefaultTemplateFormats(args: FormatArgs)
    ensures Format(DefaultTemplate, args) == Formatted(DefaultText(args))
  {
    DefaultTemplateShape();
    DefaultPiecesPlain();
    FieldNamesPlain();
    var r3 := "";
    var r2 := DefaultTail + ("{" + "mentions" + "}" + r3);
    var r1 := DefaultMiddle + ("{" + "names" + "}" + r2);
    var r0 := DefaultLead + ("{" + "today_date" + "}" + r1);
    assert Format(r3, args) == Formatted("") by {
      assert Parse(r3) == [];
    }
    var t3 := "";
    var t2 := DefaultTail + (args.mentions + t3);
    var t1 := DefaultMiddle + (args.names + t2);
    FormatPiece(DefaultTail, "mentions", args.mentions, r3, t3, args);
    FormatPiece(DefaultMiddle, "names", args.names, r2, t2, args);
    FormatPiece(DefaultLead, "today_date", args.todayDate, r1, t1, args);
    assert Format(r0, args)
        == Formatted(DefaultLead + (args.todayDate + (DefaultMiddle + (args.names + (DefaultTail + (args.mentions + ""))))));
  }

  /** A template that does not set its own text renders the default message. */
  lemma FalsyTemplateRendersDefault(template: Option<string>, names: seq<string>, mentions: seq<string>, today: string)
    requires template.None? || template == Some("")
    ensures Render(template, names, mentions, today)
            == Rendered(DefaultText(FormatArgs(NamesText(names), MentionsText(mentions), today)))
  {
  }

  /** Joining the bold names of two lists puts ", " between them. */
  lemma NamesTextAppend(a: seq<string>, b: seq<string>)
    requires |a| > 0 && |b| > 0
    ensures NamesText(a + b) == NamesText(a) + ", " + NamesText(b)
  {
    assert BoldAll(a + b) == BoldAll(a) + BoldAll(b);
    JoinAppend(BoldAll(a), BoldAll(b), ", ");
  }

  /** The mentions of two lists are the mentions of each, one after the other. */
  lemma MentionsTextAppend(a: seq<string>, b: seq<string>)
    ensures MentionsText(a + b) == MentionsText(a) + MentionsText(b)
  {
    if |a| == 0 {
      assert a + b == b;
    } else if |b| == 0 {
      assert a + b == a;
    } else {
      JoinAppend(a, b, " ");
    }
  }

  /** One mention is followed by a space. */
  lemma MentionsTextSingle(m: string)
    ensures MentionsText([m]) == m + " "
  {
  }

  /** One celebrant is shown as that name in bold. */
  lemma NamesTextSingle(n: string)
    ensures NamesText([n]) == "**" + n + "**"
  {
  }

  /** A template that is a single field and holds no "<". */
  lemma SingleFieldTemplate(name: string, conversion: Option<char>, spec: string, names: string, args: FormatArgs)
    requires NamePlain(name) && NoBraces(spec) && NoAngle(FieldText(name, conversion, spec))
    ensures ReplaceName(FieldText(name, conversion, spec), names) == FieldText(name, conversion, spec)
    ensures Format(FieldText(name, conversion, spec), args) == FieldValue(name, conversion, spec, args)
  {
    var t := FieldText(name, conversion, spec);
    ReplaceNameSkip(t, "", names);
    assert t + "" == t;
    FormatSingleField(name, conversion, spec, args);
  }

  /**
   * A field whose argument is an unknown keyword ("{bogus}", "{bogus:>10}",
   * "{bogus!r}", "{bogus.x}", "{bogus[0]}") falls back to the default
   * message, for any values.
   */
  lemma UnknownPlaceholderFallsBack(name: string, chain: string, conversion: Option<char>, spec: string,
                                    names: seq<string>, mentions: seq<string>, today: string)
    requires SimpleName(name) && !IsPlaceholder(name) && !IsPositional(name)
    requires |chain| == 0 || chain[0] == '.' || chain[0] == '['
    requires NamePlain(name + chain) && NoBraces(spec) && NoAngle(FieldText(name + chain, conversion, spec))
    ensures Render(Some(FieldText(name + chain, conversion, spec)), names, mentions, today)
            == Rendered(DefaultText(FormatArgs(NamesText(names), MentionsText(mentions), today)))
  {
    var args := FormatArgs(NamesText(names), MentionsText(mentions), today);
    SingleFieldTemplate(name + chain, conversion, spec, args.names, args);
    UnknownNameLookup(name, chain, conversion, spec, args);
  }

  /** A positional field ("{}", "{0}", "{0:>3}", "{0!r}") raises an error that is not a KeyError, for any values. */
  lemma PositionalFieldRaises(key: string, chain: string, conversion: Option<char>, spec: string,
                              names: seq<string>, mentions: seq<string>, today: string)
    requires IsPositional(key) && (|chain| == 0 || chain[0] == '.' || chain[0] == '[')
    requires NamePlain(key + chain) && NoBraces(spec) && NoAngle(FieldText(key + chain, conversion, spec))
    ensures Render(Some(FieldText(key + chain, conversion, spec)), names, mentions, today) == Raised
  {
    var args := FormatArgs(NamesText(names), MentionsText(mentions), today);
    PositionalSimple(key);
    SingleFieldTemplate(key + chain, conversion, spec, args.names, args);
    UnknownNameLookup(key, chain, conversion, spec, args);
  }

  /** A template that is just "{" and a positional name and "}" raises an error that is not a KeyError. */
  lemma PositionalKeyRaises(key: string, names: seq<string>, mentions: seq<string>, today: string)
    requires IsPositional(key)
    ensures Render(Some("{" + key + "}"), names, mentions, today) == Raised
  {
    PositionalSimple(key);
    SimplePlain(key);
    assert key + "" == key;
    assert FieldText(key, None, "") == "{" + key + "}";
    assert NoAngle("{" + key + "}");
    PositionalFieldRaises(key, "", None, "", names, mentions, today);
  }

  /** The "<name>" token is replaced by the bold name and brace-free text around it is kept literally. */
  lemma NameTokenReplaced(name: string, rest: string, today: string)
    requires NoBraces(name) && NoBraces(rest) && NoAngle(rest)
    ensures Render(Some(NameToken + rest), [name], [], today) == Rendered("**" + name + "**" + rest)
  {
    var t := NameToken + rest;
    var args := FormatArgs(NamesText([name]), MentionsText([]), today);
    assert args.names == "**" + name + "**";
    assert t[..|NameToken|] == NameToken && t[|NameToken|..] == rest;
    ReplaceNameSkip(rest, "", args.names);
    assert rest + "" == rest;
    var message := args.names + rest;
    assert ReplaceName(t, args.names) == message;
    assert NoBraces("**");
    NoBracesAppend("**", name);
    NoBracesAppend("**" + name, "**");
    NoBracesAppend(args.names, rest);
    ParseLiteral(message, "");
    assert message + "" == message;
    assert Parse("") == [];
    assert Chars(message) + [] == Chars(message);
    EvalChars(message, args);
    assert Format(message, args) == Formatted(message);
    assert ChooseTemplate(Some(t)) == t;
  }

  /**
   * Braces in a celebrant's name are read as template syntax: a name such as
   * "{x}" makes the custom template fail with a KeyError, so the default
   * message is sent instead.
   */
  lemma BracedNameFallsBack(key: string, today: string)
    requires SimpleName(key) && NoAngle(key) && !IsPlaceholder(key) && !IsPositional(key)
    ensures var name := "{" + key + "}";
            Render(Some(NameToken), [name], [], today)
            == Rendered(DefaultText(FormatArgs("**" + name + "**", "", today)))
  {
    var name := "{" + key + "}";
    var args := FormatArgs(NamesText([name]), MentionsText([]), today);
    assert args.names == "**" + name + "**";
    assert NameToken[|NameToken|..] == "";
    assert ReplaceName(NameToken, args.names) == args.names;
    ParseLiteral("**", name + "**");
    SimplePlain(key);
    ParseField(key, "**");
    assert args.names == "**" + ("{" + key + "}" + "**");
    EvalAppend(Chars("**"), [Field(key, None, "")] + Parse("**"), args);
    EvalChars("**", args);
    UnknownNameLookup(key, "", None, "", args);
    assert key + "" == key;
  }
}
