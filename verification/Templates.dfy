/**
 Model of the template renderer of tcbot/utils/i18n.py: the index-driven scanner of
 `_render_template`, the placeholder values of `_prepare_value`, and the render step of `t`.

 The scanner is proved against a grammar of templates; what a rendering reads as is the
 subject of module RenderedTemplates.
 */
module Templates {
  import opened Wrappers
  import opened Formatter

  // ---------------------------------------------------------------------------
  // The grammar
  // ---------------------------------------------------------------------------

  datatype Piece =
    | Lit(c: char)
    | Field(name: string)
    | CodeSpan(inner: string)
    | BoldSpan(inner: string)

  predicate Letter(c: char) {
    'A' <= c <= 'Z' || 'a' <= c <= 'z' || c == '_'
  }

  predicate FieldName(name: string) {
    name != "" && Letter(name[0]) && forall i :: 0 < i < |name| ==> Letter(name[i]) || '0' <= name[i] <= '9'
  }

  predicate SpanText(inner: string) {
    inner != "" && '{' !in inner && '}' !in inner
  }

  predicate WellFormed(p: Piece) {
    match p
    case Lit(c) => c != '`' && c != '*'
    case Field(name) => FieldName(name)
    case CodeSpan(inner) => SpanText(inner) && '`' !in inner
    case BoldSpan(inner) => SpanText(inner) && '`' !in inner && '*' !in inner
  }

  /** How a translator writes a piece. */
  function Source(p: Piece): string {
    match p
    case Lit(c) => if c == '{' then "{{" else if c == '}' then "}}" else [c]
    case Field(name) => "{" + name + "}"
    case CodeSpan(inner) => "`" + inner + "`"
    case BoldSpan(inner) => "*" + inner + "*"
  }

  function Unparse(ps: seq<Piece>): string {
    if ps == [] then "" else Source(ps[0]) + Unparse(ps[1..])
  }

  ghost predicate InGrammar(ps: seq<Piece>, template: string) {
    (forall i :: 0 <= i < |ps| ==> WellFormed(ps[i])) && Unparse(ps) == template
  }

  // ---------------------------------------------------------------------------
  // What a template renders to
  // ---------------------------------------------------------------------------

  function Escaped(text: string, escape: bool): string {
    if escape then Esc(text) else text
  }

  /** `inner.replace("\\", "\\\\")`. */
  function DoubleBackslashes(inner: string): string {
    if inner == "" then ""
    else (if inner[0] == '\\' then "\\\\" else [inner[0]]) + DoubleBackslashes(inner[1..])
  }

  function PieceText(p: Piece, prepared: map<string, string>, escape: bool): string
    requires p.Field? ==> p.name in prepared
  {
    match p
    case Lit(c) => Escaped([c], escape)
    case Field(name) => prepared[name]
    case CodeSpan(inner) => if escape then "`" + DoubleBackslashes(inner) + "`" else inner
    case BoldSpan(inner) => if escape then "*" + Esc(inner) + "*" else inner
  }

  predicate Supplied(ps: seq<Piece>, prepared: map<string, string>) {
    forall i :: 0 <= i < |ps| && ps[i].Field? ==> ps[i].name in prepared
  }

  function Output(ps: seq<Piece>, prepared: map<string, string>, escape: bool): string
    requires Supplied(ps, prepared)
  {
    if ps == [] then "" else PieceText(ps[0], prepared, escape) + Output(ps[1..], prepared, escape)
  }

  // ---------------------------------------------------------------------------
  // Reading one piece off the front
  // ---------------------------------------------------------------------------

  /** `str.find`: the first index of `c` from `start` on, or -1. */
  function Find(s: string, c: char, start: nat): (j: int)
    ensures j == -1 || start <= j < |s|
    ensures j == -1 ==> forall k :: start <= k < |s| ==> s[k] != c
    ensures j != -1 ==> s[j] == c && forall k :: start <= k < j ==> s[k] != c
    decreases |s| - start
  {
    if start >= |s| then -1 else if s[start] == c then start else Find(s, c, start + 1)
  }

  /** The first piece of a template that is not empty, with the length of its source. */
  function Lex(s: string): (r: Option<(Piece, nat)>)
    requires s != ""
    ensures r.Some? ==> 0 < r.value.1 <= |s|
  {
    if s[0] == '`' then
      var j := Find(s, '`', 1);
      if j < 0 || !SpanText(s[1..j]) then None else Some((CodeSpan(s[1..j]), j + 1))
    else if s[0] == '*' then
      var j := Find(s, '*', 1);
      if j < 0 || !SpanText(s[1..j]) || '`' in s[1..j] then None else Some((BoldSpan(s[1..j]), j + 1))
    else if s[0] == '{' then
      if |s| > 1 && s[1] == '{' then Some((Lit('{'), 2))
      else
        var j := Find(s, '}', 1);
        if j < 0 || !FieldName(s[1..j]) then None else Some((Field(s[1..j]), j + 1))
    else if s[0] == '}' then
      if |s| > 1 && s[1] == '}' then Some((Lit('}'), 2)) else None
    else Some((Lit(s[0]), 1))
  }

  /** What is read off is the source of a well-formed piece. */
  lemma {:induction false} LexSound(s: string)
    requires s != "" && Lex(s).Some?
    ensures WellFormed(Lex(s).value.0) && Source(Lex(s).value.0) == s[..Lex(s).value.1]
  {
    var (p, n) := Lex(s).value;
    match p {
      case Lit(c) => assert s[..n] == if n == 1 then [c] else [c, c];
      case Field(name) => assert s[..n] == "{" + name + "}";
      case CodeSpan(inner) => assert s[..n] == "`" + inner + "`";
      case BoldSpan(inner) => assert s[..n] == "*" + inner + "*";
    }
  }

  function Parse(s: string): Option<seq<Piece>>
    decreases |s|
  {
    if s == "" then Some([]) else
      match Lex(s)
      case None => None
      case Some((p, n)) =>
        match Parse(s[n..])
        case None => None
        case Some(rest) => Some([p] + rest)
  }

  /** A delimiter followed by text without the closing character and then that character. */
  lemma {:induction false} FindClosing(open: char, inner: string, close: char, rest: string)
    requires close !in inner
    ensures var s := [open] + inner + [close] + rest;
      Find(s, close, 1) == |inner| + 1 && s[1..|inner| + 1] == inner
  {
    var s := [open] + inner + [close] + rest;
    assert forall k :: 1 <= k < |inner| + 1 ==> s[k] == inner[k - 1];
    assert s[|inner| + 1] == close;
  }

  lemma {:induction false} LexCode(inner: string, rest: string)
    requires WellFormed(CodeSpan(inner))
    ensures Lex("`" + inner + "`" + rest) == Some((CodeSpan(inner), |inner| + 2))
  {
    FindClosing('`', inner, '`', rest);
  }

  lemma {:induction false} LexBold(inner: string, rest: string)
    requires WellFormed(BoldSpan(inner))
    ensures Lex("*" + inner + "*" + rest) == Some((BoldSpan(inner), |inner| + 2))
  {
    FindClosing('*', inner, '*', rest);
  }

  lemma {:induction false} LexField(name: string, rest: string)
    requires FieldName(name)
    ensures Lex("{" + name + "}" + rest) == Some((Field(name), |name| + 2))
  {
    FindClosing('{', name, '}', rest);
    var s := "{" + name + "}" + rest;
    assert s[1] == name[0];
  }

  lemma {:induction false} LexSource(p: Piece, rest: string)
    requires WellFormed(p)
    ensures Source(p) != "" && Lex(Source(p) + rest) == Some((p, |Source(p)|))
  {
    match p {
      case Lit(c) =>
      case Field(name) => LexField(name, rest);
      case CodeSpan(inner) => LexCode(inner, rest);
      case BoldSpan(inner) => LexBold(inner, rest);
    }
  }

  lemma {:induction false} ParseOne(p: Piece, rest: string)
    requires WellFormed(p)
    ensures Parse(Source(p) + rest) == if Parse(rest).Some? then Some([p] + Parse(rest).value) else None
  {
    LexSource(p, rest);
    assert (Source(p) + rest)[|Source(p)|..] == rest;
    hide Lex, Source, WellFormed;
  }

  /** The grammar is unambiguous: the parser recovers the pieces a template was written from. */
  lemma {:induction false} ParseUnparse(ps: seq<Piece>)
    requires forall i :: 0 <= i < |ps| ==> WellFormed(ps[i])
    ensures Parse(Unparse(ps)) == Some(ps)
    decreases |ps|
  {
    if ps != [] {
      hide Parse, Source, WellFormed;
      ParseOne(ps[0], Unparse(ps[1..]));
      ParseUnparse(ps[1..]);
      assert ps == [ps[0]] + ps[1..];
    }
  }

  lemma {:induction false} ParseUnfolds(s: string)
    requires s != "" && Parse(s).Some?
    ensures Lex(s).Some? && Parse(s[Lex(s).value.1..]).Some?
    ensures Parse(s).value == [Lex(s).value.0] + Parse(s[Lex(s).value.1..]).value
  {
  }

  lemma {:induction false} OneMorePiece(p: Piece, rest: seq<Piece>, s: string, n: nat)
    requires n <= |s| && WellFormed(p) && Source(p) == s[..n] && InGrammar(rest, s[n..])
    ensures InGrammar([p] + rest, s)
  {
    var ps := [p] + rest;
    hide Source, WellFormed;
    assert ps[1..] == rest && s == s[..n] + s[n..];
  }

  lemma {:induction false} UnparseParse(s: string)
    requires Parse(s).Some?
    ensures InGrammar(Parse(s).value, s)
    decreases |s|
  {
    if s != "" {
      var (p, n) := Lex(s).value;
      LexSound(s);
      ParseUnfolds(s);
      hide Lex, Parse, Source, WellFormed, InGrammar;
      UnparseParse(s[n..]);
      OneMorePiece(p, Parse(s[n..]).value, s, n);
    }
  }

  /** A template is accepted exactly when it is in the grammar, in exactly one way. */
  lemma {:induction false} ParseIffInGrammar(s: string, ps: seq<Piece>)
    ensures Parse(s) == Some(ps) <==> InGrammar(ps, s)
  {
    if InGrammar(ps, s) {
      ParseUnparse(ps);
    }
    if Parse(s).Some? {
      UnparseParse(s);
    }
  }

  // ---------------------------------------------------------------------------
  // Which fields and spans are accepted
  // ---------------------------------------------------------------------------

  /** ASCII codes: capitals, small letters and the underscore; digits. */
  predicate StartCode(n: int) {
    65 <= n <= 90 || 97 <= n <= 122 || n == 95
  }

  predicate DigitCode(n: int) {
    48 <= n <= 57
  }

  /** A braced name is a field exactly when it is an ASCII identifier. */
  lemma {:induction false} FieldAccepted(name: string)
    ensures Parse("{" + name + "}") == Some([Field(name)]) <==>
            && name != "" && StartCode(name[0] as int)
            && forall i :: 0 <= i < |name| ==> StartCode(name[i] as int) || DigitCode(name[i] as int)
  {
    OnePiece(Field(name));
    assert WellFormed(Field(name)) <==> FieldName(name);
    assert forall i :: 0 <= i < |name| ==> (Letter(name[i]) <==> StartCode(name[i] as int));
  }

  /** A span is accepted exactly when it is not empty and holds no brace, and bold text no backtick either. */
  lemma {:induction false} SpanAccepted(inner: string)
    ensures '`' !in inner ==>
              (Parse("`" + inner + "`") == Some([CodeSpan(inner)]) <==>
               inner != "" && forall i :: 0 <= i < |inner| ==> inner[i] != '{' && inner[i] != '}')
    ensures '*' !in inner ==>
              (Parse("*" + inner + "*") == Some([BoldSpan(inner)]) <==>
               inner != "" && forall i :: 0 <= i < |inner| ==> inner[i] != '{' && inner[i] != '}' && inner[i] != '`')
  {
    OnePiece(CodeSpan(inner));
    OnePiece(BoldSpan(inner));
    assert Source(CodeSpan(inner)) == "`" + inner + "`" && Source(BoldSpan(inner)) == "*" + inner + "*";
  }

  lemma {:induction false} OnePiece(p: Piece)
    ensures Parse(Source(p)) == Some([p]) <==> WellFormed(p)
  {
    assert [p][1..] == [] && Unparse([p]) == Source(p) + "" == Source(p);
    ParseIffInGrammar(Source(p), [p]);
    assert InGrammar([p], Source(p)) <==> WellFormed(p) by {
      assert [p][0] == p;
    }
  }

  // ---------------------------------------------------------------------------
  // The scanner
  // ---------------------------------------------------------------------------

  function Concat(parts: seq<string>): string {
    if parts == [] then "" else parts[0] + Concat(parts[1..])
  }

  lemma {:induction false} ConcatAppend(parts: seq<string>, part: string)
    ensures Concat(parts + [part]) == Concat(parts) + part
  {
    if parts == [] {
      assert parts + [part] == [part];
      assert [part][1..] == [];
    } else {
      ConcatAppend(parts[1..], part);
      assert (parts + [part])[1..] == parts[1..] + [part];
    }
  }

  lemma {:induction false} OutputAppend(ps: seq<Piece>, p: Piece, prepared: map<string, string>, escape: bool)
    requires Supplied(ps + [p], prepared)
    ensures Supplied(ps, prepared) && (p.Field? ==> p.name in prepared)
    ensures Output(ps + [p], prepared, escape) == Output(ps, prepared, escape) + PieceText(p, prepared, escape)
    decreases |ps|
  {
    assert (ps + [p])[|ps|] == p;
    assert forall i :: 0 <= i < |ps| ==> (ps + [p])[i] == ps[i];
    if ps == [] {
      assert ps + [p] == [p];
      assert [p][1..] == [];
    } else {
      assert (ps + [p])[1..] == ps[1..] + [p];
      OutputAppend(ps[1..], p, prepared, escape);
    }
  }

  /** What `find` from `i + 1` means for the rest of the template from `i` on. */
  lemma {:induction false} FindInRest(template: string, c: char, i: nat)
    requires i < |template|
    ensures var j, k := Find(template, c, i + 1), Find(template[i..], c, 1);
      && (j < 0 <==> k < 0)
      && (j >= 0 ==> k == j - i && template[i..][1..k] == template[i + 1..j])
  {
    var j, k := Find(template, c, i + 1), Find(template[i..], c, 1);
    if k >= 0 {
      assert template[i + k] == c;
    }
    if j >= 0 {
      assert template[i..][j - i] == c;
      assert forall m :: 1 <= m < j - i ==> template[i..][m] == template[i + m];
    }
  }

  /** `done` has been read, and the rest from `i` on is still to come. */
  ghost predicate ReadUpTo(template: string, done: seq<Piece>, i: nat)
    requires i <= |template|
  {
    Parse(template) == match Parse(template[i..]) case None => None case Some(rest) => Some(done + rest)
  }

  lemma {:induction false} ReadOnePiece(template: string, done: seq<Piece>, i: nat)
    requires i < |template| && ReadUpTo(template, done, i)
    ensures match Lex(template[i..])
      case None => Parse(template) == None
      case Some((p, n)) => ReadUpTo(template, done + [p], i + n)
  {
    match Lex(template[i..]) {
      case None =>
      case Some((p, n)) =>
        assert template[i..][n..] == template[i + n..];
        if Parse(template[i + n..]).Some? {
          assert done + ([p] + Parse(template[i + n..]).value) == (done + [p]) + Parse(template[i + n..]).value;
        }
    }
  }

  datatype I18nError = I18nError

  /** The template is in the grammar and every field has a value. */
  predicate Renderable(template: string, prepared: map<string, string>) {
    Parse(template).Some? && Supplied(Parse(template).value, prepared)
  }

  lemma {:induction false} MissingValue(template: string, done: seq<Piece>, i: nat, name: string,
      prepared: map<string, string>)
    requires i < |template| && ReadUpTo(template, done, i)
    requires Lex(template[i..]).Some? && Lex(template[i..]).value.0 == Field(name) && name !in prepared
    ensures !Renderable(template, prepared)
  {
    ReadOnePiece(template, done, i);
    var (p, n) := Lex(template[i..]).value;
    if Parse(template).Some? {
      assert Parse(template).value[|done|] == Field(name);
    }
  }

  lemma {:induction false} NothingRead(template: string, prepared: map<string, string>)
    ensures ReadUpTo(template, [], 0) && Supplied([], prepared)
    ensures Output([], prepared, true) == Output([], prepared, false) == ""
    ensures Concat([]) == Escaped("", true) == Escaped("", false) == ""
  {
    assert template[0..] == template;
    assert Parse(template).Some? ==> [] + Parse(template).value == Parse(template).value;
  }

  lemma {:induction false} EverythingRead(template: string, done: seq<Piece>, prepared: map<string, string>)
    requires ReadUpTo(template, done, |template|) && Supplied(done, prepared)
    ensures Parse(template) == Some(done) && Renderable(template, prepared)
  {
    assert template[|template|..] == "";
    assert done + [] == done;
  }

  /** `flush_literal`: the buffered literal text becomes a part of its own. */
  function Flushed(parts: seq<string>, literal: string, escape: bool): (r: seq<string>)
    ensures Concat(r) == Concat(parts) + Escaped(literal, escape)
  {
    if literal == "" then parts else
      ConcatAppend(parts, Escaped(literal, escape));
      parts + [Escaped(literal, escape)]
  }

  lemma {:induction false} Emit(done: seq<Piece>, p: Piece, parts: seq<string>, literal: string,
                                prepared: map<string, string>, escape: bool)
    requires Supplied(done, prepared) && (p.Field? ==> p.name in prepared)
    requires Concat(parts) + Escaped(literal, escape) == Output(done, prepared, escape)
    ensures Supplied(done + [p], prepared)
    ensures Concat(Flushed(parts, literal, escape) + [PieceText(p, prepared, escape)]) + Escaped("", escape)
              == Output(done + [p], prepared, escape)
  {
    OutputAppend(done, p, prepared, escape);
    ConcatAppend(Flushed(parts, literal, escape), PieceText(p, prepared, escape));
  }

  lemma {:induction false} Buffer(done: seq<Piece>, c: char, parts: seq<string>, literal: string,
      prepared: map<string, string>, escape: bool)
    requires Supplied(done, prepared)
    requires Concat(parts) + Escaped(literal, escape) == Output(done, prepared, escape)
    ensures Supplied(done + [Lit(c)], prepared)
    ensures Concat(parts) + Escaped(literal + [c], escape) == Output(done + [Lit(c)], prepared, escape)
  {
    SuppliedAppend(done, Lit(c), prepared);
    OutputAppend(done, Lit(c), prepared, escape);
    EscAppend(literal, [c]);
    assert PieceText(Lit(c), prepared, escape) == Escaped([c], escape);
    hide Output, Concat, Supplied, PieceText, Esc;
    assert Escaped(literal + [c], escape) == Escaped(literal, escape) + Escaped([c], escape);
  }

  lemma {:induction false} SuppliedAppend(done: seq<Piece>, p: Piece, prepared: map<string, string>)
    requires Supplied(done, prepared) && !p.Field?
    ensures Supplied(done + [p], prepared)
  {
    assert forall i :: 0 <= i < |done| ==> (done + [p])[i] == done[i];
  }

  /** What the scanner keeps: `done` has been read, and the parts and the buffer render it. */
  ghost predicate Scanned(template: string, prepared: map<string, string>, escape: bool,
                          i: nat, parts: seq<string>, literal: string, done: seq<Piece>)
  {
    && i <= |template| && ReadUpTo(template, done, i) && Supplied(done, prepared)
    && Concat(parts) + Escaped(literal, escape) == Output(done, prepared, escape)
  }

  lemma {:induction false} ScanPiece(template: string, prepared: map<string, string>, escape: bool,
                                     i: nat, parts: seq<string>, literal: string, done: seq<Piece>, p: Piece, n: nat)
    requires Scanned(template, prepared, escape, i, parts, literal, done) && i < |template|
    requires Lex(template[i..]) == Some((p, n)) && (p.Field? ==> p.name in prepared)
    ensures Scanned(template, prepared, escape, i + n,
              Flushed(parts, literal, escape) + [PieceText(p, prepared, escape)], "", done + [p])
  {
    hide Lex, Parse, Esc, Concat, Output, Supplied;
    ReadOnePiece(template, done, i);
    Emit(done, p, parts, literal, prepared, escape);
    hide ReadUpTo, Escaped, Flushed, PieceText;
  }

  lemma {:induction false} ScanLiteral(template: string, prepared: map<string, string>, escape: bool,
                                       i: nat, parts: seq<string>, literal: string, done: seq<Piece>, c: char, n: nat)
    requires Scanned(template, prepared, escape, i, parts, literal, done) && i < |template|
    requires Lex(template[i..]) == Some((Lit(c), n))
    ensures Scanned(template, prepared, escape, i + n, parts, literal + [c], done + [Lit(c)])
  {
    hide Lex, Parse, Esc, Concat, Output, Supplied;
    ReadOnePiece(template, done, i);
    Buffer(done, c, parts, literal, prepared, escape);
    hide ReadUpTo, Escaped;
  }

  lemma {:induction false} ScanStuck(template: string, prepared: map<string, string>, escape: bool,
                                     i: nat, parts: seq<string>, literal: string, done: seq<Piece>)
    requires Scanned(template, prepared, escape, i, parts, literal, done) && i < |template|
    requires match Lex(template[i..]) case None => true case Some((p, _)) => p.Field? && p.name !in prepared
    ensures !Renderable(template, prepared)
  {
    ReadOnePiece(template, done, i);
    if Lex(template[i..]).Some? {
      MissingValue(template, done, i, Lex(template[i..]).value.0.name, prepared);
    }
  }

  lemma {:induction false} ScanStarts(template: string, prepared: map<string, string>, escape: bool)
    ensures Scanned(template, prepared, escape, 0, [], "", [])
  {
    NothingRead(template, prepared);
  }

  lemma {:induction false} ScanEnds(template: string, prepared: map<string, string>, escape: bool,
                                    parts: seq<string>, literal: string, done: seq<Piece>)
    requires Scanned(template, prepared, escape, |template|, parts, literal, done)
    ensures Renderable(template, prepared)
    ensures Concat(Flushed(parts, literal, escape)) == Output(Parse(template).value, prepared, escape)
  {
    EverythingRead(template, done, prepared);
  }

  /** The scanner, with its literal buffer, computes what the grammar denotes and fails on the rest. */
  method RenderTemplate(template: string, prepared: map<string, string>, escape: bool)
      returns (r: Result<string, I18nError>)
    ensures r.Success? <==> Renderable(template, prepared)
    ensures r.Success? ==> r.value == Output(Parse(template).value, prepared, escape)
  {
    var parts: seq<string> := [];
    var literal := "";
    var i, n := 0, |template|;
    ghost var done: seq<Piece> := [];
    ScanStarts(template, prepared, escape);
    hide Scanned, Renderable, Output, Find, Flushed, Esc, DoubleBackslashes;
    while i < n
      invariant i <= n && Scanned(template, prepared, escape, i, parts, literal, done)
    {
      var ch := template[i];
      if ch == '`' {
        var j := Find(template, '`', i + 1);
        FindInRest(template, '`', i);
        if j < 0 {
          ScanStuck(template, prepared, escape, i, parts, literal, done);
          return Failure(I18nError);
        }
        var inner := template[i + 1..j];
        if !SpanText(inner) {
          ScanStuck(template, prepared, escape, i, parts, literal, done);
          return Failure(I18nError);
        }
        ScanPiece(template, prepared, escape, i, parts, literal, done, CodeSpan(inner), j + 1 - i);
        parts := Flushed(parts, literal, escape) + [if escape then "`" + DoubleBackslashes(inner) + "`" else inner];
        literal, done := "", done + [CodeSpan(inner)];
        i := j + 1;
      } else if ch == '*' {
        var j := Find(template, '*', i + 1);
        FindInRest(template, '*', i);
        if j < 0 {
          ScanStuck(template, prepared, escape, i, parts, literal, done);
          return Failure(I18nError);
        }
        var inner := template[i + 1..j];
        if !SpanText(inner) || '`' in inner || '*' in inner {
          ScanStuck(template, prepared, escape, i, parts, literal, done);
          return Failure(I18nError);
        }
        ScanPiece(template, prepared, escape, i, parts, literal, done, BoldSpan(inner), j + 1 - i);
        parts := Flushed(parts, literal, escape) + [if escape then "*" + Esc(inner) + "*" else inner];
        literal, done := "", done + [BoldSpan(inner)];
        i := j + 1;
      } else if ch == '{' {
        if i + 1 < n && template[i + 1] == '{' {
          ScanLiteral(template, prepared, escape, i, parts, literal, done, '{', 2);
          literal, done := literal + "{", done + [Lit('{')];
          i := i + 2;
          continue;
        }
        var j := Find(template, '}', i + 1);
        FindInRest(template, '}', i);
        if j < 0 {
          ScanStuck(template, prepared, escape, i, parts, literal, done);
          return Failure(I18nError);
        }
        var name := template[i + 1..j];
        if !FieldName(name) {
          ScanStuck(template, prepared, escape, i, parts, literal, done);
          return Failure(I18nError);
        }
        if name !in prepared {
          ScanStuck(template, prepared, escape, i, parts, literal, done);
          return Failure(I18nError);
        }
        ScanPiece(template, prepared, escape, i, parts, literal, done, Field(name), j + 1 - i);
        parts := Flushed(parts, literal, escape) + [prepared[name]];
        literal, done := "", done + [Field(name)];
        i := j + 1;
      } else if ch == '}' {
        if i + 1 < n && template[i + 1] == '}' {
          ScanLiteral(template, prepared, escape, i, parts, literal, done, '}', 2);
          literal, done := literal + "}", done + [Lit('}')];
          i := i + 2;
          continue;
        }
        ScanStuck(template, prepared, escape, i, parts, literal, done);
        return Failure(I18nError);
      } else {
        ScanLiteral(template, prepared, escape, i, parts, literal, done, ch, 1);
        literal, done := literal + [ch], done + [Lit(ch)];
        i := i + 1;
      }
    }
    ScanEnds(template, prepared, escape, parts, literal, done);
    r := Success(Concat(Flushed(parts, literal, escape)));
  }

  // ---------------------------------------------------------------------------
  // Placeholder values and the whole render step
  // ---------------------------------------------------------------------------

  /** A keyword argument of `t`: raw text, a `Safe` fragment, an integer, a boolean, or None. */
  datatype Value = Raw(text: string) | Safe(markup: string) | Number(i: int) | Flag(b: bool) | Absent

  /** `_prepare_value` of a value that is not None. */
  function PreparedValue(v: Value, escape: bool): string
    requires !v.Absent?
  {
    match v
    case Raw(text) => Escaped(text, escape)
    case Safe(markup) => markup
    case Number(i) => Decimal(i)
    case Flag(b) => if b then "True" else "False"
  }

  predicate NoneAbsent(values: map<string, Value>) {
    forall name :: name in values ==> !values[name].Absent?
  }

  function Prepared(values: map<string, Value>, escape: bool): map<string, string>
    requires NoneAbsent(values)
  {
    map name | name in values :: PreparedValue(values[name], escape)
  }

  /** The render step of `t` for a template that was found: escaped, or plain for alerts. */
  method Render(template: string, values: map<string, Value>, plain: bool) returns (r: Result<string, I18nError>)
    ensures r.Success? <==> NoneAbsent(values) && Renderable(template, Prepared(values, !plain))
    ensures r.Success? ==> r.value == Output(Parse(template).value, Prepared(values, !plain), !plain)
  {
    var escape := !plain;
    if name :| name in values && values[name].Absent? {
      return Failure(I18nError);
    }
    r := RenderTemplate(template, Prepared(values, escape), escape);
  }

  /** Escaped and plain mode accept and reject the same templates. */
  lemma {:induction false} SameTemplatesInBothModes(template: string, values: map<string, Value>)
    requires NoneAbsent(values)
    ensures Renderable(template, Prepared(values, true)) <==> Renderable(template, Prepared(values, false))
  {
    if Parse(template).Some? {
      var ps := Parse(template).value;
      assert forall i :: 0 <= i < |ps| && ps[i].Field? ==>
          (ps[i].name in Prepared(values, true) <==> ps[i].name in Prepared(values, false));
    }
  }
}
