/**
 What the renderings of tcbot/utils/i18n.py read as: the escaped one, read by the MarkdownV2
 reader of module Formatter, against the plain one.
 */
module RenderedTemplates {
  import opened Wrappers
  import opened Formatter
  import opened Templates

  // ---------------------------------------------------------------------------
  // The escaped rendering reads back as the plain one
  // ---------------------------------------------------------------------------

  /** What a value shows when it stands alone in an escaped message. */
  function Shown(v: Value): Option<seq<Glyph>>
    requires !v.Absent?
  {
    match v
    case Raw(text) => Some(Styled(text, Plain))
    case Safe(markup) => ReadBack(markup)
    case Number(i) => if i >= 0 then Some(Styled(Decimal(i), Plain)) else None
    case Flag(b) => Some(Styled(if b then "True" else "False", Plain))
  }

  lemma {:induction false} ValueReadsBack(v: Value)
    requires !v.Absent?
    ensures ReadBack(PreparedValue(v, true)) == Shown(v)
  {
    match v {
      case Raw(text) => EscReadsBack(text);
      case Safe(_) =>
      case Number(i) => IntegerReadsBack(i);
      case Flag(b) => PlainTextReadsBack(PreparedValue(v, true));
    }
  }

  predicate Shows(p: Piece, values: map<string, Value>)
    requires NoneAbsent(values)
  {
    p.Field? ==> p.name in values && Shown(values[p.name]).Some?
  }

  /** The fields of a template all have values that show. */
  predicate AllShow(ps: seq<Piece>, values: map<string, Value>)
    requires NoneAbsent(values)
  {
    forall i :: 0 <= i < |ps| ==> Shows(ps[i], values)
  }

  function PieceMeaning(p: Piece, values: map<string, Value>): seq<Glyph>
    requires NoneAbsent(values) && Shows(p, values)
  {
    match p
    case Lit(c) => [Glyph(c, Plain)]
    case Field(name) => Shown(values[name]).value
    case CodeSpan(inner) => Styled(inner, Monospace)
    case BoldSpan(inner) => Styled(inner, Strong)
  }

  /** What a template means: styled characters, with no escaping left. */
  function Meaning(ps: seq<Piece>, values: map<string, Value>): seq<Glyph>
    requires NoneAbsent(values) && AllShow(ps, values)
  {
    if ps == [] then [] else PieceMeaning(ps[0], values) + Meaning(ps[1..], values)
  }

  lemma {:induction false} DoubledIsEscaped(inner: string)
    requires '`' !in inner
    ensures DoubleBackslashes(inner) == EscCode(inner)
  {
    if inner != "" {
      DoubledIsEscaped(inner[1..]);
    }
  }

  lemma {:induction false} EscNonEmpty(text: string)
    requires text != ""
    ensures Esc(text) != "" && EscCode(text) != ""
  {
  }

  lemma {:induction false} PieceReadsBack(p: Piece, values: map<string, Value>)
    requires WellFormed(p) && NoneAbsent(values) && Shows(p, values)
    ensures ReadBack(PieceText(p, Prepared(values, true), true)) == Some(PieceMeaning(p, values))
  {
    match p {
      case Lit(c) =>
        EscReadsBack([c]);
        assert Styled([c], Plain) == [Glyph(c, Plain)];
      case Field(name) => ValueReadsBack(values[name]);
      case CodeSpan(inner) =>
        DoubledIsEscaped(inner);
        EscNonEmpty(inner);
        CodeReadsBack(inner);
      case BoldSpan(inner) =>
        EscNonEmpty(inner);
        BoldReadsBack(inner);
    }
  }

  /**
   Underscores of neighbouring pieces do not merge: where what precedes ends in one
   (`slanted`), the next piece that is not empty does not begin with one.
   */
  predicate Apart(ps: seq<Piece>, prepared: map<string, string>, slanted: bool)
    requires Supplied(ps, prepared)
  {
    ps != [] ==>
      var text := PieceText(ps[0], prepared, true);
      && (slanted && text != "" ==> text[0] != '_')
      && Apart(ps[1..], prepared, if text == "" then slanted else EndsItalic(text))
  }

  /** No piece begins with an underline; only a `Safe` fragment could. */
  predicate NoneUnderlinedFirst(ps: seq<Piece>, prepared: map<string, string>)
    requires Supplied(ps, prepared)
  {
    forall i :: 0 <= i < |ps| ==>
      var text := PieceText(ps[i], prepared, true);
      |text| > 1 && text[0] == '_' ==> text[1] != '_'
  }

  lemma {:induction false} ShowingIsSupplied(ps: seq<Piece>, values: map<string, Value>)
    requires NoneAbsent(values) && AllShow(ps, values)
    ensures Supplied(ps, Prepared(values, true))
  {
    assert forall i :: 0 <= i < |ps| ==> Shows(ps[i], values);
  }

  lemma {:induction false} Regroup(ps: seq<Piece>, values: map<string, Value>, a: string, shown: seq<Glyph>)
    requires ps != [] && NoneAbsent(values) && AllShow(ps, values) && Supplied(ps, Prepared(values, true))
    ensures var prepared := Prepared(values, true);
      && AllShow(ps[1..], values) && Shows(ps[0], values)
      && a + PieceText(ps[0], prepared, true) + Output(ps[1..], prepared, true) == a + Output(ps, prepared, true)
      && shown + PieceMeaning(ps[0], values) + Meaning(ps[1..], values) == shown + Meaning(ps, values)
  {
    hide PieceText, PieceMeaning, Shown, Prepared;
    assert Shows(ps[0], values) && forall i :: 0 <= i < |ps[1..]| ==> ps[1..][i] == ps[i + 1];
  }

  lemma {:induction false} HeadReadsBack(p: Piece, values: map<string, Value>, a: string)
    requires WellFormed(p) && NoneAbsent(values) && Shows(p, values) && (p.Field? ==> p.name in Prepared(values, true))
    requires ReadBack(a).Some? && !Merge(a, PieceText(p, Prepared(values, true), true))
    ensures var text := PieceText(p, Prepared(values, true), true);
      && ReadBack(a + text) == Some(ReadBack(a).value + PieceMeaning(p, values))
      && (EndsItalic(a + text) <==> if text == "" then EndsItalic(a) else EndsItalic(text))
  {
    PieceReadsBack(p, values);
    hide ReadBack, PieceText, PieceMeaning, Prepared, EndsItalic, WellFormed;
    ReadBackAppend(a, PieceText(p, Prepared(values, true), true));
  }

  /** After a complete message `a`, the pieces show what they mean. */
  lemma {:induction false} PiecesReadBack(ps: seq<Piece>, values: map<string, Value>, a: string)
    requires forall i :: 0 <= i < |ps| ==> WellFormed(ps[i])
    requires NoneAbsent(values) && AllShow(ps, values) && Supplied(ps, Prepared(values, true))
    requires ReadBack(a).Some? && Apart(ps, Prepared(values, true), EndsItalic(a))
    ensures ReadBack(a + Output(ps, Prepared(values, true), true)) == Some(ReadBack(a).value + Meaning(ps, values))
    decreases |ps|
  {
    hide ReadBack, WellFormed, PieceText, PieceMeaning, Shown, Prepared, EndsItalic;
    if ps == [] {
      assert a + "" == a && ReadBack(a).value + [] == ReadBack(a).value;
    } else {
      var text := PieceText(ps[0], Prepared(values, true), true);
      Regroup(ps, values, a, ReadBack(a).value);
      HeadReadsBack(ps[0], values, a);
      PiecesReadBack(ps[1..], values, a + text);
    }
  }

  lemma {:induction false} FirstPieceDiffers(ps: seq<Piece>, values: map<string, Value>, a: string)
    requires ps != [] && WellFormed(ps[0]) && NoneAbsent(values) && AllShow(ps, values)
              && Supplied(ps, Prepared(values, true))
    requires ReadBack(a).Some? && NoneUnderlinedFirst(ps, Prepared(values, true))
    requires Merge(a, PieceText(ps[0], Prepared(values, true), true))
    ensures ReadBack(a + Output(ps, Prepared(values, true), true)) != Some(ReadBack(a).value + Meaning(ps, values))
  {
    var prepared := Prepared(values, true);
    assert Shows(ps[0], values);
    PieceReadsBack(ps[0], values);
    var text, rest := PieceText(ps[0], prepared, true), Output(ps[1..], prepared, true);
    hide ReadBack, WellFormed, PieceText, PieceMeaning, Shown, Prepared, EndsItalic;
    ItalicFirst(text);
    assert (ReadBack(a).value + Meaning(ps, values))[|ReadBack(a).value|] == PieceMeaning(ps[0], values)[0];
    if ReadBack(a + (text + rest)).Some? {
      MergedShowsUnderlined(a, text + rest);
    }
  }

  /** Where underscores merge, the second piece does not show as it does on its own. */
  lemma {:induction false} MergedPiecesDiffer(ps: seq<Piece>, values: map<string, Value>, a: string)
    requires forall i :: 0 <= i < |ps| ==> WellFormed(ps[i])
    requires NoneAbsent(values) && AllShow(ps, values) && Supplied(ps, Prepared(values, true))
    requires ReadBack(a).Some? && !Apart(ps, Prepared(values, true), EndsItalic(a))
    requires NoneUnderlinedFirst(ps, Prepared(values, true))
    ensures ReadBack(a + Output(ps, Prepared(values, true), true)) != Some(ReadBack(a).value + Meaning(ps, values))
    decreases |ps|
  {
    hide ReadBack, WellFormed, PieceText, PieceMeaning, Shown, Prepared, EndsItalic;
    var text := PieceText(ps[0], Prepared(values, true), true);
    if Merge(a, text) {
      FirstPieceDiffers(ps, values, a);
    } else {
      Regroup(ps, values, a, ReadBack(a).value);
      HeadReadsBack(ps[0], values, a);
      assert forall i :: 0 <= i < |ps[1..]| ==> ps[1..][i] == ps[i + 1];
      MergedPiecesDiffer(ps[1..], values, a + text);
    }
  }

  /** The same values with each `Safe` fragment replaced by the text it shows. */
  function PlainValue(v: Value): Value
    requires !v.Absent?
  {
    match v
    case Safe(markup) => if ReadBack(markup).Some? then Raw(Text(ReadBack(markup).value)) else v
    case _ => v
  }

  function PlainValues(values: map<string, Value>): (r: map<string, Value>)
    requires NoneAbsent(values)
    ensures NoneAbsent(r)
  {
    map name | name in values :: PlainValue(values[name])
  }

  lemma {:induction false} TextAppend(a: seq<Glyph>, b: seq<Glyph>)
    ensures Text(a + b) == Text(a) + Text(b)
  {
  }

  lemma {:induction false} TextStyled(text: string, style: Style)
    ensures Text(Styled(text, style)) == text
  {
  }

  lemma {:induction false} PieceMeaningIsPlainText(p: Piece, values: map<string, Value>)
    requires NoneAbsent(values) && Shows(p, values)
    ensures Text(PieceMeaning(p, values)) == PieceText(p, Prepared(PlainValues(values), false), false)
  {
    match p {
      case Lit(c) =>
      case Field(name) => TextStyled(PreparedValue(PlainValue(values[name]), false), Plain);
      case CodeSpan(inner) => TextStyled(inner, Monospace);
      case BoldSpan(inner) => TextStyled(inner, Strong);
    }
  }

  lemma {:induction false} MeaningIsPlainOutput(ps: seq<Piece>, values: map<string, Value>)
    requires NoneAbsent(values) && AllShow(ps, values)
    ensures Supplied(ps, Prepared(PlainValues(values), false))
    ensures Text(Meaning(ps, values)) == Output(ps, Prepared(PlainValues(values), false), false)
    decreases |ps|
  {
    assert forall i :: 0 <= i < |ps| ==> Shows(ps[i], values);
    if ps != [] {
      MeaningIsPlainOutput(ps[1..], values);
      PieceMeaningIsPlainText(ps[0], values);
      TextAppend(PieceMeaning(ps[0], values), Meaning(ps[1..], values));
      hide PieceText, PieceMeaning, Shown, Text, Prepared, PlainValues;
    }
  }

  /**
   For every renderable template and all values that show: the plain rendering is the text the
   template means, and the escaped rendering is a message that shows exactly that meaning, code
   and bold spans styled, as long as no underscores merge. With pieces that do not begin with an
   underline that condition is exact.
   */
  lemma {:induction false} EscapedReadsAsPlain(template: string, values: map<string, Value>)
    requires NoneAbsent(values) && Parse(template).Some? && AllShow(Parse(template).value, values)
    ensures Renderable(template, Prepared(values, true)) && Renderable(template, Prepared(PlainValues(values), false))
    ensures var ps, prepared := Parse(template).value, Prepared(values, true);
      && Text(Meaning(ps, values)) == Output(ps, Prepared(PlainValues(values), false), false)
      && (Apart(ps, prepared, false) ==> ReadBack(Output(ps, prepared, true)) == Some(Meaning(ps, values)))
      && (NoneUnderlinedFirst(ps, prepared) && !Apart(ps, prepared, false) ==>
            ReadBack(Output(ps, prepared, true)) != Some(Meaning(ps, values)))
  {
    var ps, prepared := Parse(template).value, Prepared(values, true);
    UnparseParse(template);
    ShowingIsSupplied(ps, values);
    MeaningIsPlainOutput(ps, values);
    AloneFromStart(ps, values);
  }

  lemma {:induction false} AloneFromStart(ps: seq<Piece>, values: map<string, Value>)
    requires forall i :: 0 <= i < |ps| ==> WellFormed(ps[i])
    requires NoneAbsent(values) && AllShow(ps, values) && Supplied(ps, Prepared(values, true))
    ensures var prepared := Prepared(values, true);
      && (Apart(ps, prepared, false) ==> ReadBack(Output(ps, prepared, true)) == Some(Meaning(ps, values)))
      && (NoneUnderlinedFirst(ps, prepared) && !Apart(ps, prepared, false) ==>
            ReadBack(Output(ps, prepared, true)) != Some(Meaning(ps, values)))
  {
    var prepared := Prepared(values, true);
    assert ReadBack("") == Some([]) && !EndsItalic("");
    assert "" + Output(ps, prepared, true) == Output(ps, prepared, true)
        && [] + Meaning(ps, values) == Meaning(ps, values);
    hide ReadBack, EndsItalic, Prepared;
    if Apart(ps, prepared, false) {
      PiecesReadBack(ps, values, "");
    } else if NoneUnderlinedFirst(ps, prepared) {
      MergedPiecesDiffer(ps, values, "");
    }
  }

  // ---------------------------------------------------------------------------
  // Integers are not escaped
  // ---------------------------------------------------------------------------

  predicate FieldsGiven(ps: seq<Piece>, values: map<string, Value>) {
    forall i :: 0 <= i < |ps| && ps[i].Field? ==> ps[i].name in values
  }

  predicate SafeOnesShow(ps: seq<Piece>, values: map<string, Value>)
    requires FieldsGiven(ps, values)
  {
    forall i :: 0 <= i < |ps| && ps[i].Field? && values[ps[i].name].Safe? ==> ReadBack(values[ps[i].name].markup).Some?
  }

  predicate NoNegative(ps: seq<Piece>, values: map<string, Value>)
    requires FieldsGiven(ps, values)
  {
    forall i :: 0 <= i < |ps| && ps[i].Field? && values[ps[i].name].Number? ==> values[ps[i].name].i >= 0
  }

  lemma {:induction false} NegativeIsRefused(i: int, rest: string)
    requires i < 0
    ensures ReadBack(Decimal(i) + rest) == None
  {
    ReadAppend(START, Decimal(i), rest);
    RejectedStays(Decimal(i)[1..]);
    RejectedStays(rest);
  }

  lemma {:induction false} ShowsIffNotNegative(ps: seq<Piece>, values: map<string, Value>)
    requires NoneAbsent(values) && FieldsGiven(ps, values) && SafeOnesShow(ps, values)
    ensures AllShow(ps, values) <==> NoNegative(ps, values)
  {
    if NoNegative(ps, values) {
      forall i | 0 <= i < |ps| ensures Shows(ps[i], values) {
      }
    } else {
      var i :| 0 <= i < |ps| && ps[i].Field? && values[ps[i].name].Number? && values[ps[i].name].i < 0;
      assert !Shows(ps[i], values);
    }
  }

  /** What the first piece settles and what is left to the others. */
  lemma {:induction false} NegativeIsLater(ps: seq<Piece>, values: map<string, Value>)
    requires ps != [] && NoneAbsent(values) && FieldsGiven(ps, values) && SafeOnesShow(ps, values)
    requires !NoNegative(ps, values) && NoNegative(ps[..1], values)
    ensures FieldsGiven(ps[1..], values) && SafeOnesShow(ps[1..], values) && !NoNegative(ps[1..], values)
    ensures Shows(ps[0], values)
  {
    assert forall i :: 0 <= i < |ps[1..]| ==> ps[1..][i] == ps[i + 1];
    assert ps[..1][0] == ps[0];
    var i :| 0 <= i < |ps| && ps[i].Field? && values[ps[i].name].Number? && values[ps[i].name].i < 0;
    assert i > 0 && ps[i] == ps[1..][i - 1];
  }

  lemma {:induction false} RegroupOutput(ps: seq<Piece>, prepared: map<string, string>, a: string)
    requires ps != [] && Supplied(ps, prepared)
    ensures (ps[0].Field? ==> ps[0].name in prepared) && Supplied(ps[1..], prepared)
    ensures var text, more := PieceText(ps[0], prepared, true), Output(ps[1..], prepared, true);
      a + Output(ps, prepared, true) == a + (text + more) == a + text + more
  {
    hide PieceText;
  }

  lemma {:induction false} NegativeFirst(ps: seq<Piece>, values: map<string, Value>, a: string)
    requires ps != [] && NoneAbsent(values) && FieldsGiven(ps, values) && Supplied(ps, Prepared(values, true))
    requires ps[0].Field? && values[ps[0].name].Number? && values[ps[0].name].i < 0 && ReadBack(a).Some?
    ensures ReadBack(a + Output(ps, Prepared(values, true), true)) == None
  {
    var prepared := Prepared(values, true);
    var i := values[ps[0].name].i;
    RegroupOutput(ps, prepared, a);
    assert PieceText(ps[0], prepared, true) == Decimal(i);
    assert Decimal(i)[0] == '-';
    NegativeIsRefused(i, Output(ps[1..], prepared, true));
    hide ReadBack, Decimal, EndsItalic, PieceText;
    ReadBackAppend(a, Decimal(i) + Output(ps[1..], prepared, true));
  }

  /** After a complete message, the first negative integer makes the rendering refused. */
  lemma {:induction false} NegativeSpoils(ps: seq<Piece>, values: map<string, Value>, a: string)
    requires forall i :: 0 <= i < |ps| ==> WellFormed(ps[i])
    requires NoneAbsent(values) && FieldsGiven(ps, values) && SafeOnesShow(ps, values) && !NoNegative(ps, values)
    requires Supplied(ps, Prepared(values, true)) && ReadBack(a).Some?
    requires Apart(ps, Prepared(values, true), EndsItalic(a))
    ensures ReadBack(a + Output(ps, Prepared(values, true), true)) == None
    decreases |ps|
  {
    if NoNegative(ps[..1], values) {
      NegativeIsLater(ps, values);
      hide ReadBack, WellFormed, PieceText, Prepared, EndsItalic, NoNegative, FieldsGiven, SafeOnesShow, Shows;
      RegroupOutput(ps, Prepared(values, true), a);
      HeadReadsBack(ps[0], values, a);
      NegativeSpoils(ps[1..], values, a + PieceText(ps[0], Prepared(values, true), true));
    } else {
      NegativeFirst(ps, values, a);
    }
  }

  /**
   Integers are written unescaped. When the `Safe` fragments used are well formed and no
   underscores merge, Telegram accepts the escaped rendering exactly when no field is given a
   negative integer.
   */
  lemma {:induction false} AcceptedIffNoNegative(ps: seq<Piece>, values: map<string, Value>)
    requires forall i :: 0 <= i < |ps| ==> WellFormed(ps[i])
    requires NoneAbsent(values) && FieldsGiven(ps, values) && SafeOnesShow(ps, values)
    requires Supplied(ps, Prepared(values, true)) && Apart(ps, Prepared(values, true), false)
    ensures ReadBack(Output(ps, Prepared(values, true), true)).Some? <==> NoNegative(ps, values)
  {
    ShowsIffNotNegative(ps, values);
    if NoNegative(ps, values) {
      AloneFromStart(ps, values);
    } else {
      assert ReadBack("") == Some([]) && !EndsItalic("");
      assert "" + Output(ps, Prepared(values, true), true) == Output(ps, Prepared(values, true), true);
      NegativeSpoils(ps, values, "");
    }
  }

  /**
   The escaped rendering reads as the template means if and only if no field is given a
   negative integer and no underscores merge.
   */
  lemma {:induction false} ReadsAsMeantIff(ps: seq<Piece>, values: map<string, Value>)
    requires forall i :: 0 <= i < |ps| ==> WellFormed(ps[i])
    requires NoneAbsent(values) && FieldsGiven(ps, values) && SafeOnesShow(ps, values)
    requires Supplied(ps, Prepared(values, true)) && NoneUnderlinedFirst(ps, Prepared(values, true))
    ensures (AllShow(ps, values) && ReadBack(Output(ps, Prepared(values, true), true)) == Some(Meaning(ps, values)))
            <==> NoNegative(ps, values) && Apart(ps, Prepared(values, true), false)
  {
    ShowsIffNotNegative(ps, values);
    if NoNegative(ps, values) {
      AloneFromStart(ps, values);
    }
  }

  const TWO_FIELDS := [Field("a"), Field("b")]

  lemma {:induction false} TwoFieldsTemplate()
    ensures InGrammar(TWO_FIELDS, "{a}{b}")
  {
    assert TWO_FIELDS[1..] == [Field("b")] && [Field("b")][1..] == [];
    assert Unparse([Field("b")]) == "{b}" + "";
    assert Unparse(TWO_FIELDS) == "{" + "a" + "}" + Unparse([Field("b")]);
  }

  lemma {:induction false} TwoFieldsOutput(prepared: map<string, string>)
    requires Supplied(TWO_FIELDS, prepared) && "a" in prepared && "b" in prepared
    ensures Output(TWO_FIELDS, prepared, true) == prepared["a"] + prepared["b"]
  {
    assert TWO_FIELDS[1..] == [Field("b")] && [Field("b")][1..] == [];
    assert Output([Field("b")], prepared, true) == prepared["b"] + "";
  }

  /** The template `{a}{b}` with two italic fragments renders to a message Telegram refuses. */
  lemma {:induction false} MergedItalicsExample()
    ensures var values := map["a" := Safe("_x_"), "b" := Safe("_y_")];
      && InGrammar(TWO_FIELDS, "{a}{b}") && AllShow(TWO_FIELDS, values) && Supplied(TWO_FIELDS, Prepared(values, true))
      && ReadBack(Output(TWO_FIELDS, Prepared(values, true), true)) == None
  {
    var values := map["a" := Safe("_x_"), "b" := Safe("_y_")];
    TwoFieldsTemplate();
    AdjacentItalicsExample();
    ItalicReadsBack("y");
    assert Italic("y") == "_y_" by {
      assert "y"[1..] == "";
    }
    hide ReadBack, Italic, Esc, InGrammar, Unparse;
    ShowingIsSupplied(TWO_FIELDS, values);
    TwoFieldsOutput(Prepared(values, true));
  }

  /** The template `{n}` with n = -1 renders to a message Telegram refuses. */
  lemma {:induction false} NegativeExample()
    ensures var ps, values := [Field("n")], map["n" := Number(-1)];
      InGrammar(ps, "{n}") && Supplied(ps, Prepared(values, true))
          && ReadBack(Output(ps, Prepared(values, true), true)) == None
  {
    var ps, values := [Field("n")], map["n" := Number(-1)];
    assert ps[1..] == [];
    assert Unparse(ps) == "{" + "n" + "}" + "";
    AcceptedIffNoNegative(ps, values);
    assert ps[0].Field? && values[ps[0].name].i < 0;
  }
}
