/**
 Model of tcbot/utils/formatter.py: MarkdownV2 escaping and the markup helpers, together
 with a reader for the MarkdownV2 entities those helpers write (Telegram Bot API,
 "Formatting options", "MarkdownV2 style").
 */
module Formatter {
  import opened Wrappers

  // ---------------------------------------------------------------------------
  // The helpers
  // ---------------------------------------------------------------------------

  predicate TextSpecial(c: char) {
    c in {'_', '*', '[', ']', '(', ')', '~', '`', '>', '#', '+', '-', '=', '|', '{', '}', '.', '!', '\\'}
  }

  predicate CodeSpecial(c: char) {
    c == '`' || c == '\\'
  }

  predicate UrlSpecial(c: char) {
    c == ')' || c == '\\'
  }

  function Esc(text: string): string {
    if text == "" then "" else (if TextSpecial(text[0]) then ['\\', text[0]] else [text[0]]) + Esc(text[1..])
  }

  function EscCode(text: string): string {
    if text == "" then "" else (if CodeSpecial(text[0]) then ['\\', text[0]] else [text[0]]) + EscCode(text[1..])
  }

  function EscUrl(url: string): string {
    if url == "" then "" else (if UrlSpecial(url[0]) then ['\\', url[0]] else [url[0]]) + EscUrl(url[1..])
  }

  function Bold(text: string): string {
    if Esc(text) == "" then "" else "*" + Esc(text) + "*"
  }

  function Italic(text: string): string {
    if Esc(text) == "" then "" else "_" + Esc(text) + "_"
  }

  function Code(text: string): string {
    if EscCode(text) == "" then "" else "`" + EscCode(text) + "`"
  }

  function Link(text: string, url: string): string {
    "[" + Esc(text) + "](" + EscUrl(url) + ")"
  }

  function UserRef(userId: int, name: string): string {
    "[" + Esc(name) + "](" + UserUrl(userId) + ")"
  }

  function UserUrl(userId: int): string {
    "tg://user?id=" + Decimal(userId)
  }

  /** Python's `str` of an integer. */
  function Decimal(i: int): string {
    if i < 0 then "-" + Digits(-i) else Digits(i)
  }

  function Digits(n: nat): (s: string)
    ensures s != "" && forall i :: 0 <= i < |s| ==> '0' <= s[i] <= '9'
  {
    if n < 10 then ['0' + n as char] else Digits(n / 10) + ['0' + (n % 10) as char]
  }

  // ---------------------------------------------------------------------------
  // What a numeral means
  // ---------------------------------------------------------------------------

  /** The value of a string of decimal digits, the leftmost the most significant. */
  function Value(digits: string): int {
    if digits == "" then 0
    else Value(digits[..|digits| - 1]) * 10 + (digits[|digits| - 1] as int - '0' as int)
  }

  /** Decimal digits without a leading zero. */
  predicate Canonical(digits: string) {
    digits != "" && (|digits| > 1 ==> digits[0] != '0') && forall i :: 0 <= i < |digits| ==> '0' <= digits[i] <= '9'
  }

  /** `s` is the decimal numeral of `i`. */
  predicate Denotes(s: string, i: int) {
    if i < 0 then s != "" && s[0] == '-' && Canonical(s[1..]) && Value(s[1..]) == -i
    else Canonical(s) && Value(s) == i
  }

  lemma {:induction false} DigitsMeanNumber(n: nat)
    ensures Canonical(Digits(n)) && Value(Digits(n)) == n
    ensures n > 0 ==> Digits(n)[0] != '0'
  {
    var last := ['0' + (n % 10) as char];
    if n < 10 {
      assert Digits(n) == last && last[..0] == "";
    } else {
      DigitsMeanNumber(n / 10);
      var front := Digits(n / 10);
      assert Digits(n) == front + last && (front + last)[..|front|] == front;
      assert Value(Digits(n)) == Value(front) * 10 + n % 10;
    }
  }

  lemma {:induction false} DecimalDenotes(i: int)
    ensures Denotes(Decimal(i), i)
  {
    if i < 0 {
      DigitsMeanNumber(-i);
      assert ("-" + Digits(-i))[1..] == Digits(-i);
    } else {
      DigitsMeanNumber(i);
    }
  }

  lemma {:induction false} ValueAtLeast(digits: string)
    requires Canonical(digits)
    ensures Value(digits) >= if |digits| > 1 then 10 else 0
    ensures digits[0] != '0' ==> Value(digits) >= 1
  {
    var front := digits[..|digits| - 1];
    if front != "" {
      ValueAtLeast(front);
    }
  }

  lemma {:induction false} DigitsAreUnique(s: string, t: string)
    requires Canonical(s) && Canonical(t) && Value(s) == Value(t)
    ensures s == t
    decreases |s|
  {
    var front, front' := s[..|s| - 1], t[..|t| - 1];
    ValueAtLeast(s);
    ValueAtLeast(t);
    assert s == front + [s[|s| - 1]] && t == front' + [t[|t| - 1]];
    if |s| > 1 {
      assert |t| > 1;
      assert Value(front) == Value(front');
      DigitsAreUnique(front, front');
    } else {
      assert |t| == 1 && Value(front) == 0 == Value(front');
    }
  }

  /** An integer has exactly one numeral. */
  lemma {:induction false} NumeralIsUnique(s: string, i: int)
    ensures Denotes(s, i) <==> s == Decimal(i)
  {
    DecimalDenotes(i);
    if Denotes(s, i) {
      if i < 0 {
        DigitsAreUnique(s[1..], Decimal(i)[1..]);
        assert s == [s[0]] + s[1..] && Decimal(i) == [Decimal(i)[0]] + Decimal(i)[1..];
      } else {
        DigitsAreUnique(s, Decimal(i));
      }
    }
  }

  // ---------------------------------------------------------------------------
  // The reader
  // ---------------------------------------------------------------------------

  datatype Style = Plain | Strong | Slanted | Underlined | SlantedUnderlined | Monospace | Linked(url: string)

  datatype Glyph = Glyph(c: char, style: Style)

  function Styled(text: string, style: Style): seq<Glyph> {
    seq(|text|, i requires 0 <= i < |text| => Glyph(text[i], style))
  }

  function Text(glyphs: seq<Glyph>): string {
    seq(|glyphs|, i requires 0 <= i < |glyphs| => glyphs[i].c)
  }

  /** What a run of underscores can open: `_` an italic, `__` an underline. */
  datatype Slant = Italics | Underline

  function SlantStyle(open: seq<Slant>): Style {
    if Underline !in open then Slanted else if Italics in open then SlantedUnderlined else Underlined
  }

  /** `Underscore` has read one `_` and must see the next character to know what it is. */
  datatype Mode =
    | Outside
    | InBold(body: string)
    | InSlant(open: seq<Slant>, glyphs: seq<Glyph>)
    | Underscore(open: seq<Slant>, glyphs: seq<Glyph>)
    | InCode(body: string)
    | InLabel(body: string)
    | AfterLabel(body: string)
    | InUrl(body: string, url: string)

  datatype Reader = Reader(mode: Mode, escaped: bool, out: seq<Glyph>) | Rejected

  const START := Reader(Outside, false, [])

  /** A character that stands for itself in the current mode. */
  function Literal(mode: Mode, out: seq<Glyph>, c: char): Reader {
    match mode
    case Outside => Reader(Outside, false, out + [Glyph(c, Plain)])
    case InBold(body) => Reader(InBold(body + [c]), false, out)
    case InSlant(open, glyphs) => Reader(InSlant(open, glyphs + [Glyph(c, SlantStyle(open))]), false, out)
    case InCode(body) => Reader(InCode(body + [c]), false, out)
    case InLabel(body) => Reader(InLabel(body + [c]), false, out)
    case InUrl(body, url) => Reader(InUrl(body, url + [c]), false, out)
    case _ => Rejected
  }

  /** A delimiter ends the innermost entity if that is of its kind, and begins one otherwise. */
  function Delimiter(open: seq<Slant>, glyphs: seq<Glyph>, out: seq<Glyph>, d: Slant): Reader {
    if open == [] || open[|open| - 1] != d then Reader(InSlant(open + [d], glyphs), false, out)
    else if |open| == 1 then Reader(Outside, false, out + glyphs)
    else Reader(InSlant(open[..|open| - 1], glyphs), false, out)
  }

  /** An underscore that no second one follows delimits an italic. */
  function Settled(r: Reader): Reader {
    if r.Reader? && r.mode.Underscore? then Delimiter(r.mode.open, r.mode.glyphs, r.out, Italics) else r
  }

  /**
   Two underscores are always taken together, from left to right, as an underline delimiter.
   Only italics and underlines may nest; other nesting, empty code spans, blocks, spoilers,
   strikethrough and quotes are outside this reader, which refuses them.
   */
  function Step(r: Reader, c: char): Reader {
    if r.Reader? && r.mode.Underscore? && c == '_' then Delimiter(r.mode.open, r.mode.glyphs, r.out, Underline)
    else StepIn(Settled(r), c)
  }

  function StepIn(r: Reader, c: char): Reader {
    match r
    case Rejected => Rejected
    case Reader(mode, escaped, out) =>
      if escaped then
        if 1 as char <= c <= 126 as char then Literal(mode, out, c) else Rejected
      else if c == '\\' && !mode.AfterLabel? then Reader(mode, true, out)
      else
        match mode
        case Outside =>
          if c == '*' then Reader(InBold(""), false, out)
          else if c == '_' then Reader(Underscore([], []), false, out)
          else if c == '`' then Reader(InCode(""), false, out)
          else if c == '[' then Reader(InLabel(""), false, out)
          else Unreserved(mode, out, c)
        case InBold(body) =>
          if c == '*' then Reader(Outside, false, out + Styled(body, Strong)) else Unreserved(mode, out, c)
        case InSlant(open, glyphs) =>
          if c == '_' then Reader(Underscore(open, glyphs), false, out) else Unreserved(mode, out, c)
        case Underscore(_, _) => Rejected
        case InCode(body) =>
          if c != '`' then Literal(mode, out, c)
          else if body == "" then Rejected
          else Reader(Outside, false, out + Styled(body, Monospace))
        case InLabel(body) =>
          if c == ']' then Reader(AfterLabel(body), false, out) else Unreserved(mode, out, c)
        case AfterLabel(body) => if c == '(' then Reader(InUrl(body, ""), false, out) else Rejected
        case InUrl(body, url) =>
          if c == ')' then Reader(Outside, false, out + Styled(body, Linked(url))) else Literal(mode, out, c)
  }

  function Unreserved(mode: Mode, out: seq<Glyph>, c: char): Reader {
    if TextSpecial(c) then Rejected else Literal(mode, out, c)
  }

  function Read(r: Reader, s: string): Reader
    decreases |s|
  {
    if s == "" then r else Read(Step(r, s[0]), s[1..])
  }

  predicate Complete(r: Reader) {
    r.Reader? && r.mode.Outside? && !r.escaped
  }

  /** The styled characters a message shows; None when Telegram refuses it, or it is outside the reader. */
  function ReadBack(s: string): Option<seq<Glyph>> {
    var r := Settled(Read(START, s));
    if Complete(r) then Some(r.out) else None
  }

  lemma {:induction false} ReadAppend(r: Reader, a: string, b: string)
    ensures Read(r, a + b) == Read(Read(r, a), b)
    decreases |a|
  {
    if a == "" {
      assert a + b == b;
    } else {
      assert (a + b)[1..] == a[1..] + b;
      ReadAppend(Step(r, a[0]), a[1..], b);
    }
  }

  function After(out: seq<Glyph>, r: Reader): Reader {
    match r
    case Rejected => Rejected
    case Reader(mode, escaped, more) => Reader(mode, escaped, out + more)
  }

  /** What was shown before has no influence on how the rest is read. */
  lemma {:induction false} ReadAfter(out: seq<Glyph>, r: Reader, s: string)
    ensures Read(After(out, r), s) == After(out, Read(r, s))
    decreases |s|
  {
    if s != "" {
      assert Step(After(out, r), s[0]) == After(out, Step(r, s[0])) by {
        if r.Reader? {
          StepAfter(out, r, s[0]);
        }
      }
      ReadAfter(out, Step(r, s[0]), s[1..]);
    }
  }

  lemma {:induction false} SettledAfter(out: seq<Glyph>, r: Reader)
    ensures Settled(After(out, r)) == After(out, Settled(r))
  {
    if r.Reader? && r.mode.Underscore? {
      assert out + (r.out + r.mode.glyphs) == (out + r.out) + r.mode.glyphs;
    }
  }

  lemma {:induction false} StepInAfter(out: seq<Glyph>, r: Reader, c: char)
    requires r.Reader?
    ensures StepIn(After(out, r), c) == After(out, StepIn(r, c))
  {
    assert out + (r.out + [Glyph(c, Plain)]) == (out + r.out) + [Glyph(c, Plain)];
    match r.mode {
      case InBold(body) => assert out + (r.out + Styled(body, Strong)) == (out + r.out) + Styled(body, Strong);
      case InCode(body) => assert out + (r.out + Styled(body, Monospace)) == (out + r.out) + Styled(body, Monospace);
      case InUrl(body, url) => assert out + (r.out + Styled(body, Linked(url))) == (out + r.out)
          + Styled(body, Linked(url));
      case _ =>
    }
  }

  lemma {:induction false} StepAfter(out: seq<Glyph>, r: Reader, c: char)
    requires r.Reader?
    ensures Step(After(out, r), c) == After(out, Step(r, c))
  {
    if r.mode.Underscore? && c == '_' {
      assert out + (r.out + r.mode.glyphs) == (out + r.out) + r.mode.glyphs;
    } else {
      SettledAfter(out, r);
      StepInAfter(out, Settled(r), c);
    }
  }

  // ---------------------------------------------------------------------------
  // Messages put one after the other
  // ---------------------------------------------------------------------------

  /** The last character of the message is an underscore that delimits an entity. */
  predicate EndsItalic(s: string) {
    Read(START, s).Reader? && Read(START, s).mode.Underscore?
  }

  /** The last underscore of one message and the first of the next are taken together. */
  predicate Merge(a: string, b: string) {
    EndsItalic(a) && b != "" && b[0] == '_'
  }

  lemma {:induction false} SettledFirst(r: Reader, s: string)
    requires s != "" && s[0] != '_'
    ensures Read(r, s) == Read(Settled(r), s)
  {
  }

  /** A complete message that does not merge with the next leaves no trace but what it shows. */
  lemma {:induction false} ReadOn(a: string, b: string)
    requires ReadBack(a).Some? && !Merge(a, b) && b != ""
    ensures Read(START, a + b) == After(ReadBack(a).value, Read(START, b))
  {
    ReadAppend(START, a, b);
    var shown := ReadBack(a).value;
    assert shown + [] == shown;
    if EndsItalic(a) {
      SettledFirst(Read(START, a), b);
    }
    ReadAfter(shown, START, b);
  }

  /** Complete messages can be put one after the other unless their underscores merge. */
  lemma {:induction false} ReadBackAppend(a: string, b: string)
    requires ReadBack(a).Some? && !Merge(a, b)
    ensures ReadBack(a + b) == if ReadBack(b).Some? then Some(ReadBack(a).value + ReadBack(b).value) else None
    ensures EndsItalic(a + b) <==> if b == "" then EndsItalic(a) else EndsItalic(b)
  {
    if b == "" {
      assert a + b == a && ReadBack(a).value + [] == ReadBack(a).value;
    } else {
      ReadOn(a, b);
      SettledAfter(ReadBack(a).value, Read(START, b));
    }
  }

  /** All that has been shown so far, a pending italic or underline included. */
  function Emitted(r: Reader): seq<Glyph>
    requires r.Reader?
  {
    if r.mode.InSlant? || r.mode.Underscore? then r.out + r.mode.glyphs else r.out
  }

  lemma {:induction false} EmittedSettled(r: Reader)
    requires r.Reader?
    ensures Settled(r).Reader? && Emitted(Settled(r)) == Emitted(r)
  {
  }

  lemma {:induction false} EmittedGrows(r: Reader, c: char)
    requires r.Reader? && StepIn(r, c).Reader?
    ensures Emitted(r) <= Emitted(StepIn(r, c))
  {
    var e := Emitted(r);
    match r.mode {
      case InBold(body) => assert e <= e + Styled(body, Strong);
      case InCode(body) => assert e <= e + Styled(body, Monospace);
      case InUrl(body, url) => assert e <= e + Styled(body, Linked(url));
      case InSlant(open, glyphs) =>
        var g := Glyph(c, SlantStyle(open));
        assert r.out + (glyphs + [g]) == e + [g];
      case _ => assert e <= e + [Glyph(c, Plain)];
    }
  }

  /** What has been shown is never taken back. */
  lemma {:induction false} EmittedStays(r: Reader, s: string, k: nat)
    requires r.Reader? && k < |Emitted(r)| && Settled(Read(r, s)).Reader?
    ensures var end := Settled(Read(r, s)); k < |Emitted(end)| && Emitted(end)[k] == Emitted(r)[k]
    decreases |s|
  {
    EmittedSettled(r);
    if s != "" {
      var next := Step(r, s[0]);
      if next.Rejected? {
        RejectedStays(s[1..]);
        assert false;
      }
      if r.mode.Underscore? && s[0] == '_' {
        assert Emitted(next) == Emitted(r);
      } else {
        EmittedGrows(Settled(r), s[0]);
      }
      hide Step, Emitted;
      EmittedStays(next, s[1..], k);
    }
  }

  /** Inside an italic or underline the next character shows in its style. */
  lemma {:induction false} NextShowsSlanted(open: seq<Slant>, glyphs: seq<Glyph>, out: seq<Glyph>, s: string)
    requires open != [] && s != "" && s[0] != '_'
    requires Complete(Settled(Read(Reader(InSlant(open, glyphs), false, out), s)))
    ensures var end := Settled(Read(Reader(InSlant(open, glyphs), false, out), s));
      var k := |out + glyphs|;
      k < |end.out| && end.out[k].style == SlantStyle(open)
  {
    var r, k := Reader(InSlant(open, glyphs), false, out), |out + glyphs|;
    var head := if s[0] == '\\' && |s| > 1 then s[..2] else s[..1];
    var rest := s[|head|..];
    assert s == head + rest;
    ReadAppend(r, head, rest);
    FirstLiteral(open, glyphs, out, head);
    var next := Read(r, head);
    if next.Rejected? {
      RejectedStays(rest);
      assert false;
    } else if !next.escaped {
      EmittedStays(next, rest, k);
    }
  }

  lemma {:induction false} FirstLiteral(open: seq<Slant>, glyphs: seq<Glyph>, out: seq<Glyph>, head: string)
    requires (|head| == 2 && head[0] == '\\') || (|head| == 1 && head[0] != '_')
    ensures var r := Read(Reader(InSlant(open, glyphs), false, out), head);
      || r.Rejected?
      || (r == Reader(InSlant(open, glyphs), true, out) && head == "\\")
      || exists c :: r == Reader(InSlant(open, glyphs + [Glyph(c, SlantStyle(open))]), false, out)
  {
    var r := Reader(InSlant(open, glyphs), false, out);
    if |head| == 1 {
      assert head == [head[0]];
      ReadOne(r, head[0]);
    } else {
      assert head == [head[0]] + [head[1]];
      ReadAppend(r, [head[0]], [head[1]]);
      ReadOne(r, head[0]);
      ReadOne(Reader(InSlant(open, glyphs), true, out), head[1]);
    }
  }

  lemma {:induction false} ReadFrom(r: Reader, c: char, s: string)
    ensures Read(r, [c] + s) == Read(Step(r, c), s)
  {
    assert ([c] + s)[1..] == s;
  }

  /** A message that begins with an italic shows its first character slanted. */
  lemma {:induction false} ItalicFirst(b: string)
    requires ReadBack(b).Some? && b != "" && b[0] == '_' && (|b| > 1 ==> b[1] != '_')
    ensures |b| > 1 && ReadBack(b).value != [] && ReadBack(b).value[0].style == Slanted
  {
    var begun := Reader(Underscore([], []), false, []);
    assert b == ['_'] + b[1..];
    ReadFrom(START, '_', b[1..]);
    if b[1..] != "" {
      SettledFirst(begun, b[1..]);
      assert Settled(begun) == Reader(InSlant([Italics], []), false, []);
      NextShowsSlanted([Italics], [], [], b[1..]);
    }
  }

  /** Merged underscores show the first character of the second message underlined. */
  lemma {:induction false} MergedShowsUnderlined(a: string, b: string)
    requires ReadBack(a).Some? && Merge(a, b) && |b| > 1 && b[1] != '_' && ReadBack(a + b).Some?
    ensures |ReadBack(a).value| < |ReadBack(a + b).value|
    ensures ReadBack(a + b).value[|ReadBack(a).value|].style == SlantedUnderlined
  {
    var r := Read(START, a);
    ReadAppend(START, a, b);
    assert r.mode.open == [Italics] && ReadBack(a).value == r.out + r.mode.glyphs;
    assert b == ['_'] + b[1..];
    ReadFrom(r, '_', b[1..]);
    assert [Italics] + [Underline] == [Italics, Underline];
    assert Step(r, '_') == Reader(InSlant([Italics, Underline], r.mode.glyphs), false, r.out);
    NextShowsSlanted([Italics, Underline], r.mode.glyphs, r.out, b[1..]);
  }

  /**
   The exact condition: two complete messages, the second not beginning with an underline,
   read one after the other as they do on their own if and only if they do not merge.
   */
  lemma {:induction false} AppendIffNoMerge(a: string, b: string)
    requires ReadBack(a).Some? && ReadBack(b).Some?
    requires |b| > 1 && b[0] == '_' ==> b[1] != '_'
    ensures ReadBack(a + b) == Some(ReadBack(a).value + ReadBack(b).value) <==> !Merge(a, b)
  {
    if Merge(a, b) {
      ItalicFirst(b);
      if ReadBack(a + b).Some? {
        MergedShowsUnderlined(a, b);
      }
    } else {
      ReadBackAppend(a, b);
    }
  }

  lemma {:induction false} ReadThree(r: Reader, c: char, d: char, e: char)
    ensures Read(r, [c, d, e]) == Step(Step(Step(r, c), d), e)
  {
    assert [c, d, e] == [c] + ([d] + [e]);
    ReadFrom(r, c, [d] + [e]);
    ReadFrom(Step(r, c), d, [e]);
    ReadOne(Step(Step(r, c), d), e);
  }

  const X := Glyph('x', Slanted)
  const Y := Glyph('y', SlantedUnderlined)
  const Z := Glyph('z', Slanted)

  lemma {:induction false} OneItalic()
    ensures Read(START, "_x_") == Reader(Underscore([Italics], [X]), false, [])
  {
    ReadThree(START, '_', 'x', '_');
    assert Settled(Reader(Underscore([], []), false, [])) == Reader(InSlant([Italics], []), false, []);
    assert [] + [X] == [X];
  }

  lemma {:induction false} TwoItalics()
    ensures Read(START, "_x_" + "_y_") == Reader(Underscore([Italics, Underline], [X, Y]), false, [])
  {
    OneItalic();
    var one := Reader(Underscore([Italics], [X]), false, []);
    ReadAppend(START, "_x_", "_y_");
    ReadThree(one, '_', 'y', '_');
    assert [Italics] + [Underline] == [Italics, Underline] && [X] + [Y] == [X, Y];
    assert Step(one, '_') == Reader(InSlant([Italics, Underline], [X]), false, []);
  }

  lemma {:induction false} ThreeItalics()
    ensures Read(START, "_x_" + "_y_" + "_z_") == Reader(Underscore([Italics], [X, Y, Z]), false, [])
  {
    TwoItalics();
    var two := Reader(Underscore([Italics, Underline], [X, Y]), false, []);
    ReadAppend(START, "_x_" + "_y_", "_z_");
    ReadThree(two, '_', 'z', '_');
    assert [Italics, Underline][..1] == [Italics] && [X, Y] + [Z] == [X, Y, Z];
    assert Step(two, '_') == Reader(InSlant([Italics], [X, Y]), false, []);
  }

  /** Two italics side by side are refused, three show the middle one underlined. */
  lemma {:induction false} AdjacentItalicsExample()
    ensures ReadBack("_x_") == Some([X]) && ReadBack("_x_" + "_y_") == None
    ensures ReadBack("_x_" + "_y_" + "_z_") == Some([X, Y, Z])
  {
    OneItalic();
    TwoItalics();
    ThreeItalics();
    assert [] + [X] == [X] && [] + [X, Y, Z] == [X, Y, Z];
  }

  // ---------------------------------------------------------------------------
  // Escaping reads back as the text it was given
  // ---------------------------------------------------------------------------

  lemma {:induction false} EscReadsOutside(out: seq<Glyph>, text: string)
    ensures Read(Reader(Outside, false, out), Esc(text)) == Reader(Outside, false, out + Styled(text, Plain))
    decreases |text|
  {
    if text == "" {
      assert out + Styled(text, Plain) == out;
    } else {
      var head := if TextSpecial(text[0]) then ['\\', text[0]] else [text[0]];
      ReadAppend(Reader(Outside, false, out), head, Esc(text[1..]));
      ReadHead(Outside, out, text[0], TextSpecial(text[0]));
      EscReadsOutside(out + [Glyph(text[0], Plain)], text[1..]);
      assert out + [Glyph(text[0], Plain)] + Styled(text[1..], Plain) == out + Styled(text, Plain);
    }
  }

  /** One character, with or without its backslash, is taken literally. */
  lemma {:induction false} ReadHead(mode: Mode, out: seq<Glyph>, c: char, escaped: bool)
    requires !mode.AfterLabel? && !mode.Underscore?
    requires escaped ==> TextSpecial(c)
    requires !escaped ==> c != '\\' && Step(Reader(mode, false, out), c) == Literal(mode, out, c)
    ensures Read(Reader(mode, false, out), if escaped then ['\\', c] else [c]) == Literal(mode, out, c)
  {
    if escaped {
      assert ['\\', c][1..] == [c];
      assert [c][1..] == "";
      assert Read(Reader(mode, true, out), [c]) == Read(Literal(mode, out, c), "");
    } else {
      assert [c][1..] == "";
    }
  }

  /** The mode after `text` has been taken literally inside an entity. */
  function Extended(mode: Mode, text: string): Mode
    requires !mode.Outside? && !mode.AfterLabel? && !mode.Underscore?
  {
    match mode
    case InBold(body) => InBold(body + text)
    case InSlant(open, glyphs) => InSlant(open, glyphs + Styled(text, SlantStyle(open)))
    case InCode(body) => InCode(body + text)
    case InLabel(body) => InLabel(body + text)
    case InUrl(body, url) => InUrl(body, url + text)
  }

  lemma {:induction false} ExtendedStep(mode: Mode, out: seq<Glyph>, text: string)
    requires !mode.Outside? && !mode.AfterLabel? && !mode.Underscore? && text != ""
    ensures Literal(mode, out, text[0]) == Reader(Extended(mode, [text[0]]), false, out)
    ensures Extended(Extended(mode, [text[0]]), text[1..]) == Extended(mode, text)
  {
    assert text == [text[0]] + text[1..];
    match mode {
      case InBold(body) => assert (body + [text[0]]) + text[1..] == body + text;
      case InSlant(open, glyphs) =>
        var style := SlantStyle(open);
        assert Styled([text[0]], style) == [Glyph(text[0], style)];
        assert (glyphs + Styled([text[0]], style)) + Styled(text[1..], style) == glyphs + Styled(text, style);
      case InCode(body) => assert (body + [text[0]]) + text[1..] == body + text;
      case InLabel(body) => assert (body + [text[0]]) + text[1..] == body + text;
      case InUrl(_, url) => assert (url + [text[0]]) + text[1..] == url + text;
    }
  }

  lemma {:induction false} EscReadsInside(mode: Mode, out: seq<Glyph>, text: string)
    requires mode.InBold? || mode.InSlant? || mode.InLabel?
    ensures Read(Reader(mode, false, out), Esc(text)) == Reader(Extended(mode, text), false, out)
    decreases |text|
  {
    if text == "" {
      if mode.InSlant? {
        assert mode.glyphs + Styled("", SlantStyle(mode.open)) == mode.glyphs;
      } else {
        assert mode.body + "" == mode.body;
      }
    } else {
      var head := if TextSpecial(text[0]) then ['\\', text[0]] else [text[0]];
      ReadAppend(Reader(mode, false, out), head, Esc(text[1..]));
      ReadHead(mode, out, text[0], TextSpecial(text[0]));
      ExtendedStep(mode, out, text);
      EscReadsInside(Extended(mode, [text[0]]), out, text[1..]);
    }
  }

  lemma {:induction false} EscCodeReadsInside(body: string, out: seq<Glyph>, text: string)
    ensures Read(Reader(InCode(body), false, out), EscCode(text)) == Reader(InCode(body + text), false, out)
    decreases |text|
  {
    if text == "" {
      assert body + "" == body;
    } else {
      var head := if CodeSpecial(text[0]) then ['\\', text[0]] else [text[0]];
      ReadAppend(Reader(InCode(body), false, out), head, EscCode(text[1..]));
      ReadHead(InCode(body), out, text[0], CodeSpecial(text[0]));
      ExtendedStep(InCode(body), out, text);
      EscCodeReadsInside(body + [text[0]], out, text[1..]);
    }
  }

  lemma {:induction false} EscUrlReadsInside(body: string, url: string, out: seq<Glyph>, more: string)
    ensures Read(Reader(InUrl(body, url), false, out), EscUrl(more)) == Reader(InUrl(body, url + more), false, out)
    decreases |more|
  {
    if more == "" {
      assert url + "" == url;
    } else {
      var head := if UrlSpecial(more[0]) then ['\\', more[0]] else [more[0]];
      ReadAppend(Reader(InUrl(body, url), false, out), head, EscUrl(more[1..]));
      ReadHead(InUrl(body, url), out, more[0], UrlSpecial(more[0]));
      ExtendedStep(InUrl(body, url), out, more);
      EscUrlReadsInside(body, url + [more[0]], out, more[1..]);
    }
  }

  lemma {:induction false} ReadOne(r: Reader, c: char)
    ensures Read(r, [c]) == Step(r, c)
  {
    assert [c][1..] == "";
  }

  /** Escaped text shows as the text itself, unstyled. */
  lemma {:induction false} EscReadsBack(text: string)
    ensures ReadBack(Esc(text)) == Some(Styled(text, Plain))
  {
    EscReadsOutside([], text);
    assert [] + Styled(text, Plain) == Styled(text, Plain);
  }

  lemma {:induction false} BoldReadsBack(text: string)
    ensures ReadBack(Bold(text)) == Some(Styled(text, Strong))
  {
    if text == "" {
      assert Styled(text, Strong) == [];
    } else {
      var inside := Reader(InBold(""), false, []);
      ReadAppend(START, "*" + Esc(text), "*");
      ReadAppend(START, "*", Esc(text));
      ReadOne(START, '*');
      EscReadsInside(InBold(""), [], text);
      assert "" + text == text;
      ReadOne(Reader(InBold(text), false, []), '*');
      assert [] + Styled(text, Strong) == Styled(text, Strong);
    }
  }

  lemma {:induction false} ItalicReadsBack(text: string)
    ensures ReadBack(Italic(text)) == Some(Styled(text, Slanted))
  {
    if text == "" {
      assert Styled(text, Slanted) == [];
    } else {
      ReadAppend(START, "_" + Esc(text), "_");
      ReadAppend(START, "_", Esc(text));
      ReadOne(START, '_');
      SettledFirst(Reader(Underscore([], []), false, []), Esc(text));
      assert Settled(Reader(Underscore([], []), false, [])) == Reader(InSlant([Italics], []), false, []);
      EscReadsInside(InSlant([Italics], []), [], text);
      assert [] + Styled(text, Slanted) == Styled(text, Slanted);
      ReadOne(Reader(InSlant([Italics], Styled(text, Slanted)), false, []), '_');
      var end := Reader(Underscore([Italics], Styled(text, Slanted)), false, []);
      assert Read(START, Italic(text)) == end;
      assert Settled(end) == Reader(Outside, false, Styled(text, Slanted));
    }
  }

  lemma {:induction false} CodeReadsBack(text: string)
    ensures ReadBack(Code(text)) == Some(Styled(text, Monospace))
  {
    if text == "" {
      assert Styled(text, Monospace) == [];
    } else {
      assert Code(text) == "`" + EscCode(text) + "`";
      hide EscCode;
      ReadAppend(START, "`" + EscCode(text), "`");
      ReadAppend(START, "`", EscCode(text));
      ReadOne(START, '`');
      assert "`" == ['`'] && Step(START, '`') == Reader(InCode(""), false, []);
      EscCodeReadsInside("", [], text);
      assert "" + text == text;
      assert Read(START, "`" + EscCode(text)) == Reader(InCode(text), false, []);
      ReadOne(Reader(InCode(text), false, []), '`');
      assert [] + Styled(text, Monospace) == Styled(text, Monospace);
    }
  }

  lemma {:induction false} LabelAndUrlReadBack(text: string, url: string, rawUrl: string)
    requires Read(Reader(InUrl(text, ""), false, []), rawUrl) == Reader(InUrl(text, url), false, [])
    ensures ReadBack("[" + Esc(text) + "](" + rawUrl + ")") == Some(Styled(text, Linked(url)))
  {
    hide Read, Esc, TextSpecial;
    assert "[" + Esc(text) + "](" + rawUrl + ")" == "[" + (Esc(text) + ("]" + ("(" + (rawUrl + ")"))));
    ReadAppend(START, "[", Esc(text) + ("]" + ("(" + (rawUrl + ")"))));
    ReadOne(START, '[');
    ReadAppend(Reader(InLabel(""), false, []), Esc(text), "]" + ("(" + (rawUrl + ")")));
    EscReadsInside(InLabel(""), [], text);
    assert "" + text == text;
    ReadAppend(Reader(InLabel(text), false, []), "]", "(" + (rawUrl + ")"));
    ReadOne(Reader(InLabel(text), false, []), ']');
    ReadAppend(Reader(AfterLabel(text), false, []), "(", rawUrl + ")");
    ReadOne(Reader(AfterLabel(text), false, []), '(');
    ReadAppend(Reader(InUrl(text, ""), false, []), rawUrl, ")");
    ReadOne(Reader(InUrl(text, url), false, []), ')');
    assert [] + Styled(text, Linked(url)) == Styled(text, Linked(url));
  }

  lemma {:induction false} LinkReadsBack(text: string, url: string)
    ensures ReadBack(Link(text, url)) == Some(Styled(text, Linked(url)))
  {
    EscUrlReadsInside(text, "", [], url);
    assert "" + url == url;
    LabelAndUrlReadBack(text, url, EscUrl(url));
  }

  lemma {:induction false} UserUrlIsHarmless(userId: int)
    ensures forall i :: 0 <= i < |UserUrl(userId)| ==> !UrlSpecial(UserUrl(userId)[i])
  {
    assert forall i :: 0 <= i < |Decimal(userId)| ==> !UrlSpecial(Decimal(userId)[i]);
    hide Decimal;
  }

  /**
   `user_ref` writes its link target unescaped; for any identifier it still reads back, as the
   name linked to the user with exactly that identifier.
   */
  lemma {:induction false} UserRefReadsBack(userId: int, name: string) returns (numeral: string)
    ensures Denotes(numeral, userId)
    ensures ReadBack(UserRef(userId, name)) == Some(Styled(name, Linked("tg://user?id=" + numeral)))
  {
    DecimalDenotes(userId);
    numeral := Decimal(userId);
    UserRefReads(userId, name);
  }

  lemma {:induction false} UserRefReads(userId: int, name: string)
    ensures ReadBack(UserRef(userId, name)) == Some(Styled(name, Linked(UserUrl(userId))))
  {
    var url := UserUrl(userId);
    UserUrlIsHarmless(userId);
    hide UserUrl, Read, ReadBack, Esc, EscUrl;
    NothingToEscape(url);
    EscUrlReadsInside(name, "", [], url);
    assert "" + url == url;
    LabelAndUrlReadBack(name, url, url);
  }

  lemma {:induction false} NothingToEscape(url: string)
    requires forall i :: 0 <= i < |url| ==> !UrlSpecial(url[i])
    ensures EscUrl(url) == url
  {
    if url != "" {
      NothingToEscape(url[1..]);
    }
  }

  lemma {:induction false} PlainTextReadsBack(text: string)
    requires forall i :: 0 <= i < |text| ==> !TextSpecial(text[i])
    ensures Esc(text) == text && ReadBack(text) == Some(Styled(text, Plain))
  {
    if text != "" {
      PlainTextReadsBack(text[1..]);
    }
    EscReadsBack(text);
  }

  /** An integer written without escaping reads back, as its numeral, exactly when it is not negative. */
  lemma {:induction false} IntegerReadsBack(i: int)
    ensures Denotes(Decimal(i), i)
    ensures ReadBack(Decimal(i)) == if i >= 0 then Some(Styled(Decimal(i), Plain)) else None
  {
    DecimalDenotes(i);
    IntegerReads(i);
  }

  lemma {:induction false} IntegerReads(i: int)
    ensures ReadBack(Decimal(i)) == if i >= 0 then Some(Styled(Decimal(i), Plain)) else None
  {
    if i >= 0 {
      assert forall k :: 0 <= k < |Decimal(i)| ==> !TextSpecial(Decimal(i)[k]);
      PlainTextReadsBack(Decimal(i));
    } else {
      RejectedStays(Decimal(i)[1..]);
    }
  }

  lemma {:induction false} RejectedStays(s: string)
    ensures Read(Rejected, s) == Rejected
  {
    if s != "" {
      RejectedStays(s[1..]);
    }
  }

  lemma {:induction false} EscAppend(a: string, b: string)
    ensures Esc(a + b) == Esc(a) + Esc(b)
    decreases |a|
  {
    if a == "" {
      assert a + b == b;
    } else {
      assert (a + b)[1..] == a[1..] + b;
      EscAppend(a[1..], b);
    }
  }
}
