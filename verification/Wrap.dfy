/**
 Greedy line wrapping of styled text (crates/cli/src/ui/markdown.rs).
 */
module Wrap {
  import opened Common

  // ANSI styles are told apart by a number.
  type Style = nat

  datatype Piece = Piece(text: string, style: Option<Style>)

  // What is written: line prefixes, deferred spaces, words, style codes and line ends.
  datatype Token =
    | Prefix
    | Continuation
    | Newline
    | Space
    | Text(text: string, style: Option<Style>)
    | On(code: Style)
    | Off(code: Style)

  // `char::is_whitespace`.
  predicate IsWhitespace(c: char) {
    var u := c as int;
    || 9 <= u <= 13 || u == 0x20 || u == 0x85 || u == 0xA0 || u == 0x1680
    || 0x2000 <= u <= 0x200A || u == 0x2028 || u == 0x2029 || u == 0x202F || u == 0x205F || u == 0x3000
  }

  predicate AllWhitespace(s: string) {
    forall i :: 0 <= i < |s| ==> IsWhitespace(s[i])
  }

  datatype Kind = Empty | HardBreak | Blank | Word

  function KindOf(p: Piece): Kind {
    if p.text == "" then Empty
    else if p.text == "\n" then HardBreak
    else if AllWhitespace(p.text) then Blank
    else Word
  }

  // Terminal geometry: line width, widths of first-line prefix and continuation, width of a text.
  datatype Geometry = Geometry(width: nat, prefix: nat, continuation: nat, widthOf: string -> nat)

  datatype State = State(column: nat, hasContent: bool, pending: bool, active: Option<Style>)

  function StyleSwitch(active: Option<Style>, style: Option<Style>): seq<Token> {
    if active == style then []
    else (if active.Some? then [Off(active.value)] else []) + (if style.Some? then [On(style.value)] else [])
  }

  function StyleEnd(active: Option<Style>): seq<Token> {
    if active.Some? then [Off(active.value)] else []
  }

  // What comes before a word of width w, with the column and style there: a deferred space or a line break.
  function Lead(s: State, w: nat, g: Geometry): (seq<Token>, nat, Option<Style>) {
    if !s.pending || !s.hasContent then ([], s.column, s.active)
    else if s.column + 1 + w <= g.width then ([Space], s.column + 1, s.active)
    else (StyleEnd(s.active) + [Newline, Continuation], g.continuation, None)
  }

  // What one piece writes, and the state after it.
  function Emit(s: State, p: Piece, g: Geometry): (seq<Token>, State) {
    match KindOf(p)
    case Empty => ([], s)
    case HardBreak =>
      (StyleEnd(s.active) + [Newline, Continuation], State(g.continuation, false, false, None))
    case Blank => ([], s.(pending := true))
    case Word =>
      var w := g.widthOf(p.text);
      var (before, column, active) := Lead(s, w, g);
      (before + StyleSwitch(active, p.style) + [Text(p.text, p.style)], State(column + w, true, false, p.style))
  }

  // Everything written by a list of pieces, starting on a fresh line.
  function EmitAll(pieces: seq<Piece>, g: Geometry): (r: (seq<Token>, State))
    ensures r.0 != []
  {
    if pieces == [] then ([Prefix], State(g.prefix, false, false, None))
    else
      var (out, s) := EmitAll(pieces[..|pieces| - 1], g);
      var (more, s') := Emit(s, pieces[|pieces| - 1], g);
      (out + more, s')
  }

  function Wrapped(pieces: seq<Piece>, g: Geometry): (r: seq<Token>)
    ensures r != []
  {
    var (out, s) := EmitAll(pieces, g);
    out + StyleEnd(s.active)
  }

  class RenderEngine {
    var out: seq<Token>
    var atLineStart: bool
    const g: Geometry

    constructor (g: Geometry)
      ensures this.g == g && out == [] && atLineStart
    {
      this.g := g;
      out, atLineStart := [], true;
    }

    method Newline()
      modifies this
      ensures out == old(out) + [Token.Newline] && atLineStart
    {
      out := out + [Token.Newline];
      atLineStart := true;
    }

    method FinishStyle(style: Option<Style>)
      modifies this`out
      ensures out == old(out) + StyleEnd(style)
    {
      if style.Some? {
        out := out + [Off(style.value)];
      }
    }

    /** Switches the active style, closing the old one and opening the new one as needed. */
    method ApplyStyle(active: Option<Style>, style: Option<Style>) returns (now: Option<Style>)
      modifies this`out
      ensures out == old(out) + StyleSwitch(active, style) && now == style
    {
      now := active;
      if active == style {
        return;
      }
      if active.Some? {
        out := out + [Off(active.value)];
      }
      now := style;
      if style.Some? {
        out := out + [On(style.value)];
      }
    }

    // Writes the line prefix, unless the line has begun.
    method EmitLineStart()
      modifies this
      ensures out == old(out) + (if old(atLineStart) then [Prefix] else []) && !atLineStart
    {
      if atLineStart {
        out := out + [Prefix];
        atLineStart := false;
      }
    }

    // Ends the line and starts the next one behind the continuation.
    method BreakLine(active: Option<Style>)
      modifies this
      ensures out == old(out) + (StyleEnd(active) + [Token.Newline, Continuation]) && atLineStart
    {
      FinishStyle(active);
      Newline();
      out := out + [Continuation];
    }

    // The deferred space or the line break before a word.
    method EmitLead(s: State, w: nat) returns (column: nat, active: Option<Style>)
      modifies this
      ensures out == old(out) + Lead(s, w, g).0 && (column, active) == (Lead(s, w, g).1, Lead(s, w, g).2)
      ensures atLineStart <==> old(atLineStart) || !NoBreak(Lead(s, w, g).0)
    {
      column, active := s.column, s.active;
      if s.pending {
        if s.hasContent && column + 1 + w <= g.width {
          out := out + [Space];
          column := column + 1;
        } else if s.hasContent {
          BreakLine(active);
          assert Lead(s, w, g).0[|StyleEnd(active)|].Newline?;
          active := None;
          column := g.continuation;
        }
      }
    }

    method EmitWord(s: State, piece: Piece) returns (s': State)
      requires KindOf(piece).Word?
      modifies this
      ensures out == old(out) + Emit(s, piece, g).0 && s' == Emit(s, piece, g).1
      ensures atLineStart <==> old(atLineStart) || !NoBreak(Emit(s, piece, g).0)
    {
      hide KindOf, Lead, StyleSwitch, StyleEnd;
      var w := g.widthOf(piece.text);
      ghost var before := Lead(s, w, g).0;
      var column, active := EmitLead(s, w);
      ghost var switch := StyleSwitch(active, piece.style);
      SumStyles(active, piece.style, g);
      active := ApplyStyle(active, piece.style);
      out := out + [Text(piece.text, piece.style)];
      assert out == old(out) + (before + switch + [Text(piece.text, piece.style)]);
      BreakAppend(before, switch);
      BreakAppend(before + switch, [Text(piece.text, piece.style)]);
      s' := State(column + w, true, false, active);
    }

    /** The wrapping loop. On a line that has begun, the prefix is not written, but still counted. */
    method EmitWrapped(pieces: seq<Piece>)
      modifies this
      ensures out == old(out) + Wrapped(pieces, g)[if old(atLineStart) then 0 else 1..]
      ensures atLineStart <==> !NoBreak(Wrapped(pieces, g))
    {
      hide Emit, EmitAll, KindOf, StyleEnd, NoBreak;
      ghost var skip := if atLineStart then 0 else 1;
      EmitNothing(g);
      EmitLineStart();
      var s := State(g.prefix, false, false, None);
      for i := 0 to |pieces|
        invariant out == old(out) + EmitAll(pieces[..i], g).0[skip..] && s == EmitAll(pieces[..i], g).1
        invariant atLineStart <==> !NoBreak(EmitAll(pieces[..i], g).0)
      {
        EmitNext(pieces, i, skip, g);
        s := EmitPiece(s, pieces[i]);
      }
      assert pieces[..|pieces|] == pieces;
      EmitClose(pieces, skip, g);
      FinishStyle(s.active);
    }

    method EmitPiece(s: State, piece: Piece) returns (s': State)
      modifies this
      ensures out == old(out) + Emit(s, piece, g).0 && s' == Emit(s, piece, g).1
      ensures atLineStart <==> old(atLineStart) || !NoBreak(Emit(s, piece, g).0)
    {
      hide KindOf;
      s' := s;
      match KindOf(piece) {
        case Empty =>
        case HardBreak =>
          BreakLine(s.active);
          assert Emit(s, piece, g).0[|StyleEnd(s.active)|].Newline?;
          s' := State(g.continuation, false, false, None);
        case Blank =>
          s' := s.(pending := true);
        case Word =>
          s' := EmitWord(s, piece);
      }
    }
  }

  lemma EmitNothing(g: Geometry)
    ensures EmitAll([], g) == ([Prefix], State(g.prefix, false, false, None))
    ensures NoBreak([Prefix])
  {
  }

  lemma EmitNext(pieces: seq<Piece>, i: nat, skip: nat, g: Geometry)
    requires i < |pieces| && skip <= 1
    ensures var (out, s), (more, s') := EmitAll(pieces[..i], g), Emit(EmitAll(pieces[..i], g).1, pieces[i], g);
      && EmitAll(pieces[..i + 1], g).0[skip..] == out[skip..] + more && EmitAll(pieces[..i + 1], g).1 == s'
      && (NoBreak(EmitAll(pieces[..i + 1], g).0) <==> NoBreak(out) && NoBreak(more))
  {
    hide Emit, NoBreak;
    assert pieces[..i + 1][..i] == pieces[..i];
    var (out, s) := EmitAll(pieces[..i], g);
    BreakAppend(out, Emit(s, pieces[i], g).0);
  }

  lemma EmitClose(pieces: seq<Piece>, skip: nat, g: Geometry)
    requires skip <= 1
    ensures var (out, s) := EmitAll(pieces, g);
      && Wrapped(pieces, g)[skip..] == out[skip..] + StyleEnd(s.active)
      && (NoBreak(Wrapped(pieces, g)) <==> NoBreak(out))
  {
    hide EmitAll, StyleEnd, NoBreak;
    var (out, s) := EmitAll(pieces, g);
    SumStyles(s.active, None, g);
    BreakAppend(out, StyleEnd(s.active));
  }

  lemma BreakAppend(a: seq<Token>, b: seq<Token>)
    ensures NoBreak(a + b) <==> NoBreak(a) && NoBreak(b)
  {
    if NoBreak(a + b) {
      assert forall i :: 0 <= i < |a| ==> a[i] == (a + b)[i];
      assert forall i :: 0 <= i < |b| ==> b[i] == (a + b)[|a| + i];
    }
  }

  /* Words, in order. */

  function TextsOf(tokens: seq<Token>): seq<Piece> {
    if tokens == [] then []
    else
      var last := tokens[|tokens| - 1];
      TextsOf(tokens[..|tokens| - 1]) + if last.Text? then [Piece(last.text, last.style)] else []
  }

  function WordsOf(pieces: seq<Piece>): seq<Piece> {
    if pieces == [] then []
    else
      var last := pieces[|pieces| - 1];
      WordsOf(pieces[..|pieces| - 1]) + if KindOf(last).Word? then [last] else []
  }

  lemma {:induction false} TextsAppend(a: seq<Token>, b: seq<Token>)
    ensures TextsOf(a + b) == TextsOf(a) + TextsOf(b)
    decreases |b|
  {
    if b == [] {
      assert a + b == a;
    } else {
      var n := |b| - 1;
      assert (a + b)[..|a + b| - 1] == a + b[..n];
      TextsAppend(a, b[..n]);
    }
  }

  predicate NoText(tokens: seq<Token>) {
    forall i :: 0 <= i < |tokens| ==> !tokens[i].Text?
  }

  lemma {:induction false} TextsNone(tokens: seq<Token>)
    requires NoText(tokens)
    ensures TextsOf(tokens) == []
  {
    if tokens != [] {
      TextsNone(tokens[..|tokens| - 1]);
    }
  }

  lemma TextsOfStep(s: State, p: Piece, g: Geometry)
    ensures TextsOf(Emit(s, p, g).0) == if KindOf(p).Word? then [p] else []
  {
    var out := Emit(s, p, g).0;
    if KindOf(p).Word? {
      var before := out[..|out| - 1];
      TextsNone(before);
    } else {
      TextsNone(out);
    }
  }

  /** The words come out once each, in order, each in its own style. */
  lemma {:induction false} WordsInOrder(pieces: seq<Piece>, g: Geometry)
    ensures TextsOf(EmitAll(pieces, g).0) == WordsOf(pieces)
    ensures TextsOf(Wrapped(pieces, g)) == WordsOf(pieces)
  {
    hide Emit, KindOf;
    if pieces == [] {
      TextsNone([Prefix]);
    } else {
      var before := pieces[..|pieces| - 1];
      WordsInOrder(before, g);
      TextsOfStep(EmitAll(before, g).1, pieces[|pieces| - 1], g);
      TextsAppend(EmitAll(before, g).0, Emit(EmitAll(before, g).1, pieces[|pieces| - 1], g).0);
    }
    var (out, s) := EmitAll(pieces, g);
    TextsNone(StyleEnd(s.active));
    TextsAppend(out, StyleEnd(s.active));
  }

  /* Styles. */

  // The style in force after the tokens, or None when they are not well bracketed: one style at a time,
  // closed before the line ends, and every word written under its own style.
  function StyleAfter(tokens: seq<Token>): Option<Option<Style>> {
    if tokens == [] then Some(None)
    else
      match StyleAfter(tokens[..|tokens| - 1])
      case None => None
      case Some(active) => StyleStep(active, tokens[|tokens| - 1])
  }

  function StyleStep(active: Option<Style>, t: Token): Option<Option<Style>> {
    match t
    case On(c) => if active.None? then Some(Some(c)) else None
    case Off(c) => if active == Some(c) then Some(None) else None
    case Newline => if active.None? then Some(None) else None
    case Text(_, style) => if active == style then Some(active) else None
    case _ => Some(active)
  }

  function StyleRun(active: Option<Style>, tokens: seq<Token>): Option<Option<Style>>
    decreases |tokens|
  {
    if tokens == [] then Some(active)
    else
      match StyleStep(active, tokens[0])
      case None => None
      case Some(next) => StyleRun(next, tokens[1..])
  }

  lemma {:induction false} StyleAppend(a: seq<Token>, b: seq<Token>)
    requires StyleAfter(a).Some?
    ensures StyleAfter(a + b) == StyleRun(StyleAfter(a).value, b)
    decreases |b|
  {
    hide StyleStep;
    if b == [] {
      assert a + b == a;
    } else {
      var a' := a + [b[0]];
      assert a'[..|a|] == a;
      assert a + b == a' + b[1..];
      if StyleAfter(a').Some? {
        StyleAppend(a', b[1..]);
      } else {
        StyleStuck(a', b[1..]);
      }
    }
  }

  lemma {:induction false} StyleStuck(a: seq<Token>, b: seq<Token>)
    requires StyleAfter(a).None?
    ensures StyleAfter(a + b).None?
    decreases |b|
  {
    if b == [] {
      assert a + b == a;
    } else {
      assert (a + b)[..|a + b| - 1] == a + b[..|b| - 1];
      StyleStuck(a, b[..|b| - 1]);
    }
  }

  lemma StyleRunTwo(active: Option<Style>, a: seq<Token>, b: seq<Token>, mid: Option<Style>)
    requires StyleRun(active, a) == Some(mid)
    ensures StyleRun(active, a + b) == StyleRun(mid, b)
    decreases |a|
  {
    if a == [] {
      assert a + b == b;
    } else {
      assert (a + b)[1..] == a[1..] + b;
      StyleRunTwo(StyleStep(active, a[0]).value, a[1..], b, mid);
    }
  }

  lemma EndRuns(active: Option<Style>)
    ensures StyleRun(active, StyleEnd(active)) == Some(None)
    ensures StyleRun(active, StyleEnd(active) + [Newline, Continuation]) == Some(None)
  {
    var tail := [Newline, Continuation];
    assert tail[1..] == [Continuation] && [Continuation][1..] == [];
    assert StyleRun(None, [Continuation]) == Some(None);
    assert StyleRun(None, tail) == Some(None);
    assert active.Some? ==> StyleEnd(active)[1..] == [];
    StyleRunTwo(active, StyleEnd(active), tail, None);
  }

  lemma SwitchRuns(active: Option<Style>, style: Option<Style>)
    ensures StyleRun(active, StyleSwitch(active, style)) == Some(style)
  {
    if active != style {
      var a := if active.Some? then [Off(active.value)] else [];
      var b := if style.Some? then [On(style.value)] else [];
      assert active.Some? ==> a[1..] == [];
      assert style.Some? ==> b[1..] == [];
      StyleRunTwo(active, a, b, None);
    }
  }

  /** No fewer codes lead from one style to another. */
  lemma SwitchIsShortest(active: Option<Style>, style: Option<Style>, codes: seq<Token>)
    requires StyleRun(active, codes) == Some(style)
    ensures |StyleSwitch(active, style)| <= |codes|
  {
    assert |codes| == 1 ==> codes[1..] == [];
  }

  lemma StyleOfStep(s: State, p: Piece, g: Geometry)
    ensures StyleRun(s.active, Emit(s, p, g).0) == Some(Emit(s, p, g).1.active)
  {
    hide StyleRun, StyleEnd, StyleSwitch;
    var (out, s') := Emit(s, p, g);
    EndRuns(s.active);
    RunOne(s.active, p);
    if KindOf(p).Word? {
      var w := g.widthOf(p.text);
      var stays := s.pending && s.hasContent && s.column + 1 + w <= g.width;
      var wraps := s.pending && s.hasContent && !stays;
      var before := if stays then [Space] else if wraps then StyleEnd(s.active) + [Newline, Continuation] else [];
      var active := if wraps then None else s.active;
      SwitchRuns(active, p.style);
      StyleRunTwo(active, StyleSwitch(active, p.style), [Text(p.text, p.style)], p.style);
      StyleRunTwo(s.active, before, StyleSwitch(active, p.style) + [Text(p.text, p.style)], active);
      assert out == before + (StyleSwitch(active, p.style) + [Text(p.text, p.style)]);
    }
  }

  lemma RunOne(active: Option<Style>, p: Piece)
    ensures StyleRun(active, []) == Some(active) && StyleRun(active, [Space]) == Some(active)
    ensures StyleRun(p.style, [Text(p.text, p.style)]) == Some(p.style)
  {
    assert [Space][1..] == [] && [Text(p.text, p.style)][1..] == [];
  }

  /** Every style opened on a line is closed on it, and each word stands under its own style. */
  lemma {:induction false} StylesBracketed(pieces: seq<Piece>, g: Geometry)
    ensures StyleAfter(EmitAll(pieces, g).0) == Some(EmitAll(pieces, g).1.active)
    ensures StyleAfter(Wrapped(pieces, g)) == Some(None)
  {
    hide Emit, StyleEnd;
    if pieces == [] {
      assert [Prefix][..0] == [];
    } else {
      var before := pieces[..|pieces| - 1];
      StylesBracketed(before, g);
      StyleOfStep(EmitAll(before, g).1, pieces[|pieces| - 1], g);
      StyleAppend(EmitAll(before, g).0, Emit(EmitAll(before, g).1, pieces[|pieces| - 1], g).0);
    }
    var (out, s) := EmitAll(pieces, g);
    EndRuns(s.active);
    StyleAppend(out, StyleEnd(s.active));
  }

  /* Spaces. */

  predicate IsStyleCode(t: Token) {
    t.On? || t.Off?
  }

  // Behind the space at i, after style codes only, comes a word.
  predicate LeadsToWord(tokens: seq<Token>, i: nat) {
    exists k :: i < k < |tokens| && tokens[k].Text? && forall j :: i < j < k ==> IsStyleCode(tokens[j])
  }

  predicate SpacesLeadToWords(tokens: seq<Token>) {
    forall i :: 0 <= i < |tokens| && tokens[i].Space? ==> LeadsToWord(tokens, i)
  }

  lemma SpacesAppend(a: seq<Token>, b: seq<Token>)
    requires SpacesLeadToWords(a) && SpacesLeadToWords(b)
    ensures SpacesLeadToWords(a + b)
  {
    var c := a + b;
    forall i | 0 <= i < |c| && c[i].Space? ensures LeadsToWord(c, i) {
      if i < |a| {
        var k :| i < k < |a| && a[k].Text? && forall j :: i < j < k ==> IsStyleCode(a[j]);
        assert c[k].Text? && forall j :: i < j < k ==> c[j] == a[j];
      } else {
        assert LeadsToWord(b, i - |a|);
        var k :| i - |a| < k < |b| && b[k].Text? && forall j :: i - |a| < j < k ==> IsStyleCode(b[j]);
        assert c[k + |a|].Text? && forall j :: i < j < k + |a| ==> c[j] == b[j - |a|];
      }
    }
  }

  lemma SpacesOfStep(s: State, p: Piece, g: Geometry)
    ensures SpacesLeadToWords(Emit(s, p, g).0)
  {
    var out := Emit(s, p, g).0;
    if KindOf(p).Word? {
      var k := |out| - 1;
      forall i | 0 <= i < |out| && out[i].Space? ensures LeadsToWord(out, i) {
        assert out[k].Text? && forall j :: i < j < k ==> IsStyleCode(out[j]);
      }
    }
  }

  /** No line ends in a deferred space: every space is followed by a word on the same line. */
  lemma {:induction false} NoTrailingSpace(pieces: seq<Piece>, g: Geometry)
    ensures SpacesLeadToWords(EmitAll(pieces, g).0)
    ensures SpacesLeadToWords(Wrapped(pieces, g))
  {
    hide Emit;
    if pieces != [] {
      var before := pieces[..|pieces| - 1];
      NoTrailingSpace(before, g);
      SpacesOfStep(EmitAll(before, g).1, pieces[|pieces| - 1], g);
      SpacesAppend(EmitAll(before, g).0, Emit(EmitAll(before, g).1, pieces[|pieces| - 1], g).0);
    }
    var (out, s) := EmitAll(pieces, g);
    SpacesAppend(out, StyleEnd(s.active));
  }

  /* Width. */

  // The widths of the lines written, the last one being the current line.
  function Widths(tokens: seq<Token>, g: Geometry): (r: seq<nat>)
    ensures r != []
  {
    if tokens == [] then [0]
    else
      var before, last := Widths(tokens[..|tokens| - 1], g), tokens[|tokens| - 1];
      if last.Newline? then before + [0]
      else before[|before| - 1 := before[|before| - 1] + TokenWidth(last, g)]
  }

  function TokenWidth(t: Token, g: Geometry): nat {
    match t
    case Prefix => g.prefix
    case Continuation => g.continuation
    case Space => 1
    case Text(text, _) => g.widthOf(text)
    case _ => 0
  }

  function SumWidth(tokens: seq<Token>, g: Geometry): nat {
    if tokens == [] then 0 else SumWidth(tokens[..|tokens| - 1], g) + TokenWidth(tokens[|tokens| - 1], g)
  }

  predicate NoBreak(tokens: seq<Token>) {
    forall i :: 0 <= i < |tokens| ==> !tokens[i].Newline?
  }

  function AddToLast(widths: seq<nat>, w: nat): seq<nat>
    requires widths != []
  {
    widths[|widths| - 1 := widths[|widths| - 1] + w]
  }

  lemma {:induction false} WidthsAppend(a: seq<Token>, b: seq<Token>, g: Geometry)
    requires NoBreak(b)
    ensures Widths(a + b, g) == AddToLast(Widths(a, g), SumWidth(b, g))
    decreases |b|
  {
    hide TokenWidth;
    if b == [] {
      assert a + b == a;
    } else {
      assert (a + b)[..|a + b| - 1] == a + b[..|b| - 1];
      WidthsAppend(a, b[..|b| - 1], g);
    }
  }

  lemma WidthsBreak(a: seq<Token>, g: Geometry)
    ensures Widths(a + [Newline], g) == Widths(a, g) + [0]
  {
    assert (a + [Newline])[..|a|] == a;
  }

  lemma {:induction false} SumAppend(a: seq<Token>, b: seq<Token>, g: Geometry)
    ensures SumWidth(a + b, g) == SumWidth(a, g) + SumWidth(b, g)
    decreases |b|
  {
    hide TokenWidth;
    if b == [] {
      assert a + b == a;
    } else {
      assert (a + b)[..|a + b| - 1] == a + b[..|b| - 1];
      SumAppend(a, b[..|b| - 1], g);
    }
  }

  lemma SumOne(t: Token, g: Geometry)
    ensures SumWidth([], g) == 0 && SumWidth([t], g) == TokenWidth(t, g)
  {
    assert [t][..0] == [];
  }

  lemma SumStyles(active: Option<Style>, style: Option<Style>, g: Geometry)
    ensures SumWidth(StyleEnd(active), g) == 0 && NoBreak(StyleEnd(active))
    ensures SumWidth(StyleSwitch(active, style), g) == 0 && NoBreak(StyleSwitch(active, style))
  {
    var a := if active.Some? then [Off(active.value)] else [];
    var b := if style.Some? then [On(style.value)] else [];
    if active.Some? { SumOne(Off(active.value), g); }
    if style.Some? { SumOne(On(style.value), g); }
    SumAppend(a, b, g);
  }

  // A word ends the line before it.
  predicate WrapsBefore(s: State, w: nat, g: Geometry) {
    s.pending && s.hasContent && s.column + 1 + w > g.width
  }

  lemma WidthsOfLead(out: seq<Token>, s: State, w: nat, g: Geometry)
    requires Widths(out, g)[|Widths(out, g)| - 1] == s.column
    ensures var (before, column, active) := Lead(s, w, g);
      var old' := Widths(out, g);
      Widths(out + before, g) == if WrapsBefore(s, w, g) then old' + [column] else old'[|old'| - 1 := column]
  {
    hide Widths, SumWidth, StyleEnd;
    var before := Lead(s, w, g).0;
    if WrapsBefore(s, w, g) {
      SumOne(Space, g);
      BreakWidths(out, s.active, [], g);
      assert StyleEnd(s.active) + [Newline, Continuation] + [] == before;
    } else if s.pending && s.hasContent {
      SumOne(Space, g);
      WidthsAppend(out, before, g);
    } else {
      assert out + before == out;
    }
  }

  // The lines of the output after one more piece.
  lemma WidthsOfStep(out: seq<Token>, s: State, p: Piece, g: Geometry)
    requires Widths(out, g)[|Widths(out, g)| - 1] == s.column
    ensures var (more, s') := Emit(s, p, g);
      var old', new' := Widths(out, g), Widths(out + more, g);
      && new'[|new'| - 1] == s'.column
      && (if KindOf(p).HardBreak? || (KindOf(p).Word? && WrapsBefore(s, g.widthOf(p.text), g))
          then new' == old' + [s'.column] else new' == old'[|old'| - 1 := s'.column])
  {
    hide KindOf, Widths, SumWidth, StyleEnd, StyleSwitch, WrapsBefore, Lead;
    var (more, s') := Emit(s, p, g);
    match KindOf(p)
    case Empty => assert out + more == out;
    case Blank => assert out + more == out;
    case HardBreak =>
      SumOne(Space, g);
      BreakWidths(out, s.active, [], g);
      assert StyleEnd(s.active) + [Newline, Continuation] + [] == more;
    case Word =>
      var w := g.widthOf(p.text);
      var (before, column, active) := Lead(s, w, g);
      var switch := StyleSwitch(active, p.style);
      WidthsOfLead(out, s, w, g);
      SumStyles(active, p.style, g);
      WordWidths(switch, p, g);
      WidthsAppend(out + before, switch + [Text(p.text, p.style)], g);
      assert out + more == (out + before) + (switch + [Text(p.text, p.style)]);
  }

  lemma WordWidths(before: seq<Token>, p: Piece, g: Geometry)
    requires NoBreak(before)
    ensures NoBreak(before + [Text(p.text, p.style)])
    ensures SumWidth(before + [Text(p.text, p.style)], g) == SumWidth(before, g) + g.widthOf(p.text)
  {
    hide SumWidth;
    SumOne(Text(p.text, p.style), g);
    SumAppend(before, [Text(p.text, p.style)], g);
  }

  lemma BreakWidths(out: seq<Token>, active: Option<Style>, rest: seq<Token>, g: Geometry)
    requires NoBreak(rest)
    ensures Widths(out + (StyleEnd(active) + [Newline, Continuation] + rest), g)
      == Widths(out, g) + [g.continuation + SumWidth(rest, g)]
  {
    hide Widths, SumWidth;
    var a := out + StyleEnd(active);
    SumStyles(active, None, g);
    WidthsAppend(out, StyleEnd(active), g);
    WidthsBreak(a, g);
    SumOne(Continuation, g);
    SumAppend([Continuation], rest, g);
    WidthsAppend(a + [Newline], [Continuation] + rest, g);
    assert out + (StyleEnd(active) + [Newline, Continuation] + rest) == (a + [Newline]) + ([Continuation] + rest);
  }

  // The last piece with any text is a word.
  predicate AfterWord(pieces: seq<Piece>) {
    pieces != [] &&
    var kind := KindOf(pieces[|pieces| - 1]);
    kind.Word? || (kind.Empty? && AfterWord(pieces[..|pieces| - 1]))
  }

  // No two words touch: there is whitespace or a break between them.
  predicate Separated(pieces: seq<Piece>) {
    pieces == [] ||
    (&& Separated(pieces[..|pieces| - 1])
     && !(KindOf(pieces[|pieces| - 1]).Word? && AfterWord(pieces[..|pieces| - 1])))
  }

  lemma {:induction false} PendingUnlessAfterWord(pieces: seq<Piece>, g: Geometry)
    ensures var s := EmitAll(pieces, g).1; s.hasContent ==> (!s.pending <==> AfterWord(pieces))
    ensures var s := EmitAll(pieces, g).1; !s.hasContent ==> !AfterWord(pieces)
  {
    if pieces != [] {
      PendingUnlessAfterWord(pieces[..|pieces| - 1], g);
    }
  }

  predicate AllFit(widths: seq<nat>, width: nat) {
    forall i :: 0 <= i < |widths| ==> widths[i] <= width
  }

  // Every word fits on a line of its own.
  predicate WordsFit(words: seq<Piece>, g: Geometry) {
    forall i :: 0 <= i < |words| ==> g.prefix + g.widthOf(words[i].text) <= g.width
  }

  // Prefix and continuation are built to the same width.
  lemma {:induction false} WidthBound(pieces: seq<Piece>, g: Geometry)
    requires g.prefix == g.continuation
    ensures var (out, s) := EmitAll(pieces, g);
      var widths := Widths(out, g);
      && widths[|widths| - 1] == s.column
      && s.column >= g.prefix && (!s.hasContent ==> s.column == g.prefix)
      && (AllFit(widths, g.width) ==> g.prefix <= g.width && WordsFit(WordsOf(pieces), g))
      && (Separated(pieces) && g.prefix <= g.width && WordsFit(WordsOf(pieces), g) ==> AllFit(widths, g.width))
  {
    hide Emit, KindOf, Widths;
    if pieces == [] {
      FirstLine(g);
    } else {
      var before, p := pieces[..|pieces| - 1], pieces[|pieces| - 1];
      WidthBound(before, g);
      PendingUnlessAfterWord(before, g);
      WidthsOfStep(EmitAll(before, g).0, EmitAll(before, g).1, p, g);
      BoundStep(Widths(EmitAll(before, g).0, g), EmitAll(before, g).1, WordsOf(before), p, g,
                Widths(EmitAll(pieces, g).0, g));
    }
  }

  lemma FirstLine(g: Geometry)
    ensures Widths([Prefix], g) == [g.prefix]
  {
    assert [Prefix][..0] == [];
  }

  lemma BoundStep(old': seq<nat>, s: State, words: seq<Piece>, p: Piece, g: Geometry, new': seq<nat>)
    requires g.prefix == g.continuation && old' != [] && old'[|old'| - 1] == s.column
    requires s.column >= g.prefix && (!s.hasContent ==> s.column == g.prefix)
    requires AllFit(old', g.width) ==> g.prefix <= g.width && WordsFit(words, g)
    requires var s' := Emit(s, p, g).1;
      if KindOf(p).HardBreak? || (KindOf(p).Word? && WrapsBefore(s, g.widthOf(p.text), g))
      then new' == old' + [s'.column] else new' == old'[|old'| - 1 := s'.column]
    ensures var s' := Emit(s, p, g).1;
      && s'.column >= g.prefix && (!s'.hasContent ==> s'.column == g.prefix)
      && var words' := words + if KindOf(p).Word? then [p] else [];
         && (AllFit(new', g.width) ==> g.prefix <= g.width && WordsFit(words', g))
         && (AllFit(old', g.width) && !(KindOf(p).Word? && s.hasContent && !s.pending) && WordsFit(words', g) ==>
              AllFit(new', g.width))
         && (WordsFit(words', g) ==> WordsFit(words, g))
  {
    hide KindOf;
    var s', w := Emit(s, p, g).1, g.widthOf(p.text);
    var n := |old'| - 1;
    match KindOf(p)
    case Word =>
      FitWord(words, p, g);
      FitLast(old', g.width);
      FitLast(new', g.width);
    case HardBreak =>
      assert words + [] == words;
      FitLast(new', g.width);
      assert new'[..|new'| - 1] == old';
      FitLast(old', g.width);
    case _ =>
      assert words + [] == words;
      assert new' == old';
  }

  lemma FitWord(words: seq<Piece>, p: Piece, g: Geometry)
    ensures WordsFit(words + [p], g) <==> WordsFit(words, g) && g.prefix + g.widthOf(p.text) <= g.width
  {
    var all := words + [p];
    assert all[|words|] == p;
    assert forall i :: 0 <= i < |words| ==> all[i] == words[i];
  }

  lemma FitLast(widths: seq<nat>, width: nat)
    requires widths != []
    ensures AllFit(widths, width) <==> AllFit(widths[..|widths| - 1], width) && widths[|widths| - 1] <= width
  {
    assert forall i :: 0 <= i < |widths| - 1 ==> widths[..|widths| - 1][i] == widths[i];
  }

  /** When every line fits, every word fits alone behind the prefix; when no two words touch, also the other way. */
  lemma LinesFitIffWordsFit(pieces: seq<Piece>, g: Geometry)
    requires g.prefix == g.continuation
    ensures AllFit(Widths(Wrapped(pieces, g), g), g.width) ==> g.prefix <= g.width && WordsFit(WordsOf(pieces), g)
    ensures Separated(pieces) ==>
      (AllFit(Widths(Wrapped(pieces, g), g), g.width) <==> g.prefix <= g.width && WordsFit(WordsOf(pieces), g))
  {
    hide Emit, KindOf, Widths, StyleEnd, SumWidth;
    WidthBound(pieces, g);
    var (out, s) := EmitAll(pieces, g);
    SumStyles(s.active, None, g);
    WidthsAppend(out, StyleEnd(s.active), g);
    assert AddToLast(Widths(out, g), 0) == Widths(out, g);
  }

  /** Words that touch share a line, whatever its width. */
  lemma TouchingWordsShareALine(p: Piece, q: Piece, g: Geometry)
    requires KindOf(p).Word? && KindOf(q).Word?
    ensures Widths(Wrapped([p, q], g), g) == [g.prefix + g.widthOf(p.text) + g.widthOf(q.text)]
  {
    hide KindOf, Widths, StyleEnd, StyleSwitch, SumWidth;
    FirstLine(g);
    assert [] + [p] == [p] && [p] + [q] == [p, q];
    EmitLast([], p, g);
    EmitLast([p], q, g);
    assert EmitAll([], g).0 == [Prefix];
    WidthsOfStep(EmitAll([], g).0, EmitAll([], g).1, p, g);
    WidthsOfStep(EmitAll([p], g).0, EmitAll([p], g).1, q, g);
    var (out, s) := EmitAll([p, q], g);
    SumStyles(s.active, None, g);
    WidthsAppend(out, StyleEnd(s.active), g);
  }

  lemma EmitLast(pieces: seq<Piece>, p: Piece, g: Geometry)
    ensures var (out, s) := EmitAll(pieces, g);
      EmitAll(pieces + [p], g) == (out + Emit(s, p, g).0, Emit(s, p, g).1)
  {
    assert (pieces + [p])[..|pieces|] == pieces;
  }

  /** So without whitespace between them each word can fit and the line not. */
  lemma TouchingWordsOverflow()
    ensures var g := Geometry(10, 0, 0, (s: string) => |s|);
      var pieces := [Piece("abcdefgh", None), Piece("ijklmnop", Some(1))];
      && WordsFit(WordsOf(pieces), g) && !Separated(pieces)
      && !AllFit(Widths(Wrapped(pieces, g), g), g.width)
  {
    hide EmitAll, Wrapped, Widths;
    var g := Geometry(10, 0, 0, (s: string) => |s|);
    var a, b := Piece("abcdefgh", None), Piece("ijklmnop", Some(1));
    assert !IsWhitespace(a.text[0]) && !IsWhitespace(b.text[0]);
    assert KindOf(a).Word? && KindOf(b).Word?;
    TouchingWordsShareALine(a, b, g);
    assert [a, b][..1] == [a];
    assert WordsOf([a]) == [a] && AfterWord([a]);
    assert Widths(Wrapped([a, b], g), g)[0] == 16;
  }

  // Every word is one column wide, and so is the line.
  function Narrow(): Geometry {
    Geometry(1, 0, 0, (s: string) => 1)
  }

  lemma {:induction false} ContentTakesRoom(pieces: seq<Piece>)
    ensures var s := EmitAll(pieces, Narrow()).1; s.hasContent ==> s.column >= 1
  {
    hide KindOf;
    if pieces != [] {
      ContentTakesRoom(pieces[..|pieces| - 1]);
    }
  }

  // On such a line two words that touch do not fit, and what follows does not help.
  lemma {:induction false} TouchingOverflows(pieces: seq<Piece>)
    requires !Separated(pieces)
    ensures var (out, s) := EmitAll(pieces, Narrow());
      var widths := Widths(out, Narrow());
      widths[|widths| - 1] == s.column && !AllFit(widths, 1)
  {
    assert pieces != [];
    hide KindOf, Widths, EmitAll, Separated, Emit, Segments, Greedy, GreedyLines;
    var g := Narrow();
    var before, p := pieces[..|pieces| - 1], pieces[|pieces| - 1];
    var (out, s) := EmitAll(before, g);
    WrapIsGreedy(before, g);
    EmitLast(before, p, g);
    assert before + [p] == pieces;
    WidthsOfStep(out, s, p, g);
    if Separated(before) {
      TouchesLast(pieces);
      PendingUnlessAfterWord(before, g);
      ContentTakesRoom(before);
      WordAfterWord(s, p, g);
      assert Widths(EmitAll(pieces, g).0, g)[|Widths(EmitAll(pieces, g).0, g)| - 1] > 1;
    } else {
      TouchingOverflows(before);
      ColumnGrows(s, p, g);
      StillTooWide(Widths(out, g), Widths(EmitAll(pieces, g).0, g));
    }
  }

  lemma TouchesLast(pieces: seq<Piece>)
    requires !Separated(pieces) && Separated(pieces[..|pieces| - 1])
    ensures KindOf(pieces[|pieces| - 1]).Word? && AfterWord(pieces[..|pieces| - 1])
  {
  }

  lemma WordAfterWord(s: State, p: Piece, g: Geometry)
    requires KindOf(p).Word? && !s.pending
    ensures Emit(s, p, g).1.column == s.column + g.widthOf(p.text)
  {
  }

  // Without a line break the column never goes back.
  lemma ColumnGrows(s: State, p: Piece, g: Geometry)
    ensures KindOf(p).HardBreak? || (KindOf(p).Word? && WrapsBefore(s, g.widthOf(p.text), g)) ||
      Emit(s, p, g).1.column >= s.column
  {
    hide KindOf;
  }

  lemma StillTooWide(old': seq<nat>, new': seq<nat>)
    requires old' != [] && new' != [] && !AllFit(old', 1)
    requires (exists c: nat :: new' == old' + [c]) || new' == old'[|old'| - 1 := new'[|new'| - 1]]
    requires |new'| == |old'| ==> new'[|new'| - 1] >= old'[|old'| - 1]
    ensures !AllFit(new', 1)
  {
    var i :| 0 <= i < |old'| && old'[i] > 1;
    assert new'[i] > 1;
  }

  // Fitting words make fitting lines, whatever the line width and the widths of the words are.
  ghost predicate AlwaysFits(pieces: seq<Piece>) {
    forall g: Geometry :: g.prefix == g.continuation <= g.width && WordsFit(WordsOf(pieces), g) ==>
      AllFit(Widths(Wrapped(pieces, g), g), g.width)
  }

  /** Fitting words always make fitting lines exactly when no two of them touch. */
  lemma FitsExactlyWhenSeparated(pieces: seq<Piece>)
    ensures AlwaysFits(pieces) <==> Separated(pieces)
  {
    hide Separated, WordsOf, Widths, Wrapped;
    if Separated(pieces) {
      forall g: Geometry | g.prefix == g.continuation <= g.width && WordsFit(WordsOf(pieces), g)
        ensures AllFit(Widths(Wrapped(pieces, g), g), g.width)
      {
        LinesFitIffWordsFit(pieces, g);
      }
    } else {
      TouchingOverflows(pieces);
      WrappedWidths(pieces, Narrow());
      assert WordsFit(WordsOf(pieces), Narrow());
    }
  }

  // Closing the last style does not change the lines.
  lemma WrappedWidths(pieces: seq<Piece>, g: Geometry)
    ensures Widths(Wrapped(pieces, g), g) == Widths(EmitAll(pieces, g).0, g)
  {
    hide Widths, StyleEnd, SumWidth, EmitAll;
    var (out, s) := EmitAll(pieces, g);
    SumStyles(s.active, None, g);
    WidthsAppend(out, StyleEnd(s.active), g);
    assert AddToLast(Widths(out, g), 0) == Widths(out, g);
  }

  /* Number of lines. */

  // Words that touch, by their widths: they cannot be parted.
  datatype Cluster = Cluster(first: nat, rest: seq<nat>)

  function Sum(widths: seq<nat>): nat {
    if widths == [] then 0 else Sum(widths[..|widths| - 1]) + widths[|widths| - 1]
  }

  function Breadth(c: Cluster): nat {
    c.first + Sum(c.rest)
  }

  function Grow(c: Cluster, w: nat): (r: Cluster)
    ensures Breadth(r) == Breadth(c) + w
  {
    assert (c.rest + [w])[..|c.rest|] == c.rest;
    c.(rest := c.rest + [w])
  }

  // The clusters between hard breaks.
  function Segments(pieces: seq<Piece>, g: Geometry): (r: seq<seq<Cluster>>)
    ensures r != [] && (AfterWord(pieces) ==> r[|r| - 1] != [])
  {
    if pieces == [] then [[]]
    else
      var init, p := pieces[..|pieces| - 1], pieces[|pieces| - 1];
      var before := Segments(init, g);
      match KindOf(p)
      case HardBreak => before + [[]]
      case Word => before[|before| - 1 := Place(before[|before| - 1], AfterWord(init), g.widthOf(p.text))]
      case _ => before
  }

  // One more word: it joins the last cluster if it touches it.
  function Place(clusters: seq<Cluster>, touches: bool, w: nat): (r: seq<Cluster>)
    requires touches ==> clusters != []
    ensures r != []
  {
    if touches then clusters[|clusters| - 1 := Grow(clusters[|clusters| - 1], w)] else clusters + [Cluster(w, [])]
  }

  // Lines used and column reached when the clusters are placed greedily from `start` on: the first word of each
  // decides whether it stays on the line.
  function Greedy(words: seq<Cluster>, start: nat, g: Geometry): (r: (nat, nat))
    ensures r.0 >= 1
  {
    if words == [] then (1, start)
    else
      var n := |words| - 1;
      var (lines, column) := Greedy(words[..n], start, g);
      if n == 0 then (1, column + Breadth(words[0]))
      else if column + 1 + words[n].first <= g.width then (lines, column + 1 + Breadth(words[n]))
      else (lines + 1, g.continuation + Breadth(words[n]))
  }

  // The first segment starts behind the prefix, the others behind the continuation.
  function StartOf(i: nat, g: Geometry): nat {
    if i == 0 then g.prefix else g.continuation
  }

  function GreedyLines(segments: seq<seq<Cluster>>, g: Geometry): nat {
    if segments == [] then 0
    else
      var n := |segments| - 1;
      GreedyLines(segments[..n], g) + Greedy(segments[n], StartOf(n, g), g).0
  }

  // The wrapping loop places each segment's clusters as `Greedy` says.
  lemma {:induction false} WrapIsGreedy(pieces: seq<Piece>, g: Geometry)
    ensures var (out, s) := EmitAll(pieces, g);
      var widths, segments := Widths(out, g), Segments(pieces, g);
      var n := |segments| - 1;
      && widths[|widths| - 1] == s.column == Greedy(segments[n], StartOf(n, g), g).1
      && |widths| == GreedyLines(segments, g)
      && (s.hasContent <==> segments[n] != [])
  {
    hide KindOf, Widths, Greedy, GreedyLines, Segments, AfterWord, Place, WrapsBefore;
    if pieces == [] {
      NothingIsGreedy(g);
    } else {
      var before, p := pieces[..|pieces| - 1], pieces[|pieces| - 1];
      var segments := Segments(before, g);
      var n := |segments| - 1;
      WrapIsGreedy(before, g);
      PendingUnlessAfterWord(before, g);
      WidthsOfStep(EmitAll(before, g).0, EmitAll(before, g).1, p, g);
      SegmentsStep(pieces, g);
      match KindOf(p)
      case Word =>
        WordIsGreedy(EmitAll(before, g).1, p, segments[..n], segments[n], AfterWord(before), g);
      case HardBreak =>
        NewLineIsGreedy(segments, g);
      case _ =>
    }
  }

  lemma NothingIsGreedy(g: Geometry)
    ensures Widths(EmitAll([], g).0, g) == [g.prefix] && Segments([], g) == [[]]
    ensures Greedy([], g.prefix, g) == (1, g.prefix) && GreedyLines([[]], g) == 1
  {
    hide Widths, Greedy, GreedyLines;
    FirstLine(g);
    NewLineIsGreedy([], g);
    NoPieces(g.prefix, g);
    assert [] + [[]] == Segments([], g);
  }

  lemma NewLineIsGreedy(segments: seq<seq<Cluster>>, g: Geometry)
    ensures GreedyLines(segments + [[]], g) == GreedyLines(segments, g) + 1
    ensures Greedy([], g.continuation, g) == (1, g.continuation)
  {
    hide Greedy, GreedyLines;
    NoPieces(StartOf(|segments|, g), g);
    NoPieces(g.continuation, g);
    LinesStep(segments, [], g);
  }

  // One more word: the loop and greedy placement do the same.
  lemma WordIsGreedy(s: State, p: Piece, segments: seq<seq<Cluster>>, last: seq<Cluster>, touches: bool, g: Geometry)
    requires KindOf(p).Word? && (s.hasContent <==> last != []) && (touches ==> last != [])
    requires s.hasContent ==> (!s.pending <==> touches)
    requires s.column == Greedy(last, StartOf(|segments|, g), g).1
    ensures var w := g.widthOf(p.text);
      var s', placed := Emit(s, p, g).1, Place(last, touches, w);
      && s'.hasContent && s'.column == Greedy(placed, StartOf(|segments|, g), g).1
      && GreedyLines(segments + [placed], g) ==
           GreedyLines(segments + [last], g) + if WrapsBefore(s, w, g) then 1 else 0
  {
    hide KindOf, Greedy, GreedyLines, Place;
    GreedyPlace(last, touches, g.widthOf(p.text), StartOf(|segments|, g), g);
    NoPieces(StartOf(|segments|, g), g);
    LinesStep(segments, last, g);
    LinesStep(segments, Place(last, touches, g.widthOf(p.text)), g);
  }

  // How one more word moves greedy placement.
  lemma GreedyPlace(clusters: seq<Cluster>, touches: bool, w: nat, start: nat, g: Geometry)
    requires touches ==> clusters != []
    ensures var (lines, column) := Greedy(clusters, start, g);
      Greedy(Place(clusters, touches, w), start, g) ==
        if touches then (lines, column + w)
        else if clusters == [] then (1, start + w)
        else if column + 1 + w <= g.width then (lines, column + 1 + w)
        else (lines + 1, g.continuation + w)
  {
    hide Greedy;
    if touches {
      var n := |clusters| - 1;
      var init, last := clusters[..n], clusters[n];
      assert clusters == init + [last] && Place(clusters, touches, w) == init + [Grow(last, w)];
      GreedyStep(init, last, start, g);
      GreedyStep(init, Grow(last, w), start, g);
    } else {
      GreedyStep(clusters, Cluster(w, []), start, g);
    }
  }

  lemma LinesStep(segments: seq<seq<Cluster>>, last: seq<Cluster>, g: Geometry)
    ensures GreedyLines(segments + [last], g) == GreedyLines(segments, g) + Greedy(last, StartOf(|segments|, g), g).0
  {
    assert (segments + [last])[..|segments|] == segments;
  }

  lemma GreedyStep(words: seq<Cluster>, c: Cluster, start: nat, g: Geometry)
    ensures var (lines, column) := Greedy(words, start, g);
      Greedy(words + [c], start, g) ==
        if words == [] then (1, start + Breadth(c))
        else if column + 1 + c.first <= g.width then (lines, column + 1 + Breadth(c))
        else (lines + 1, g.continuation + Breadth(c))
  {
    assert (words + [c])[..|words|] == words;
  }

  // Every cluster is one word.
  predicate SingleWords(segments: seq<seq<Cluster>>) {
    forall i, k :: 0 <= i < |segments| && 0 <= k < |segments[i]| ==> segments[i][k].rest == []
  }

  /** The clusters are the words themselves exactly when no two words touch. */
  lemma {:induction false} ClustersAreWords(pieces: seq<Piece>, g: Geometry)
    ensures SingleWords(Segments(pieces, g)) <==> Separated(pieces)
  {
    hide KindOf, Segments, AfterWord;
    if pieces == [] {
      NoPieces(0, g);
    } else {
      var before, p := pieces[..|pieces| - 1], pieces[|pieces| - 1];
      var segments := Segments(before, g);
      var init, last := segments[..|segments| - 1], segments[|segments| - 1];
      ClustersAreWords(before, g);
      SegmentsStep(pieces, g);
      SingleLast(init, last);
      match KindOf(p)
      case Word =>
        SingleLast(init, Place(last, AfterWord(before), g.widthOf(p.text)));
        PlaceSingle(last, AfterWord(before), g.widthOf(p.text));
      case HardBreak =>
        SingleLast(segments, []);
      case _ =>
    }
  }

  lemma SingleLast(segments: seq<seq<Cluster>>, last: seq<Cluster>)
    ensures SingleWords(segments + [last]) <==>
      SingleWords(segments) && forall k :: 0 <= k < |last| ==> last[k].rest == []
  {
    var all := segments + [last];
    if SingleWords(all) {
      assert forall i :: 0 <= i < |segments| ==> all[i] == segments[i];
      assert all[|segments|] == last;
    }
  }

  lemma PlaceSingle(clusters: seq<Cluster>, touches: bool, w: nat)
    requires touches ==> clusters != []
    ensures (forall k :: 0 <= k < |Place(clusters, touches, w)| ==> Place(clusters, touches, w)[k].rest == []) <==>
      !touches && forall k :: 0 <= k < |clusters| ==> clusters[k].rest == []
  {
    var placed := Place(clusters, touches, w);
    if touches {
      assert placed[|clusters| - 1].rest != [];
    } else {
      assert forall k :: 0 <= k < |clusters| ==> placed[k] == clusters[k];
    }
  }

  // A split of the clusters into lines, none of them empty.
  ghost predicate IsLayout(layout: seq<seq<Cluster>>, words: seq<Cluster>) {
    NoEmptyLine(layout) && Flat(layout) == words
  }

  predicate NoEmptyLine<T(==)>(layout: seq<seq<T>>) {
    forall i :: 0 <= i < |layout| ==> layout[i] != []
  }

  function Flat<T>(layout: seq<seq<T>>): seq<T> {
    if layout == [] then [] else Flat(layout[..|layout| - 1]) + layout[|layout| - 1]
  }

  lemma FlatStep<T>(layout: seq<seq<T>>, line: seq<T>)
    ensures Flat(layout + [line]) == Flat(layout) + line
  {
    assert (layout + [line])[..|layout|] == layout;
  }

  function WidthsOf(words: seq<Piece>, g: Geometry): (r: seq<nat>)
    ensures |r| == |words| && forall i :: 0 <= i < |words| ==> r[i] == g.widthOf(words[i].text)
  {
    seq<nat>(|words|, i requires 0 <= i < |words| => g.widthOf(words[i].text))
  }

  // The widths of the words in these clusters.
  function Unclustered(clusters: seq<Cluster>): seq<nat> {
    if clusters == [] then []
    else
      var last := clusters[|clusters| - 1];
      Unclustered(clusters[..|clusters| - 1]) + [last.first] + last.rest
  }

  lemma UnclusteredStep(clusters: seq<Cluster>, c: Cluster)
    ensures Unclustered(clusters + [c]) == Unclustered(clusters) + ([c.first] + c.rest)
  {
    assert (clusters + [c])[..|clusters|] == clusters;
  }

  lemma {:induction false} UnclusteredAppend(a: seq<Cluster>, b: seq<Cluster>)
    ensures Unclustered(a + b) == Unclustered(a) + Unclustered(b)
    decreases |b|
  {
    hide Unclustered;
    if b == [] {
      assert a + b == a;
      NoPieces(0, Narrow());
    } else {
      var init, last := b[..|b| - 1], b[|b| - 1];
      UnclusteredAppend(a, init);
      UnclusteredStep(a + init, last);
      UnclusteredStep(init, last);
      assert b == init + [last] && a + b == a + init + [last];
    }
  }

  lemma PlaceUnclustered(clusters: seq<Cluster>, touches: bool, w: nat)
    requires touches ==> clusters != []
    ensures Unclustered(Place(clusters, touches, w)) == Unclustered(clusters) + [w]
  {
    hide Unclustered;
    if touches {
      var n := |clusters| - 1;
      var init, last := clusters[..n], clusters[n];
      assert clusters == init + [last] && Place(clusters, touches, w) == init + [Grow(last, w)];
      UnclusteredStep(init, last);
      UnclusteredStep(init, Grow(last, w));
    } else {
      UnclusteredStep(clusters, Cluster(w, []));
    }
  }

  // The segments hold the widths of all words, in order.
  lemma {:induction false} SegmentsHoldWords(pieces: seq<Piece>, g: Geometry)
    ensures Unclustered(Flat(Segments(pieces, g))) == WidthsOf(WordsOf(pieces), g)
  {
    hide KindOf, Segments, Flat, WidthsOf, Unclustered, AfterWord, Place;
    if pieces == [] {
      NoPieces(g.prefix, g);
      FlatStep<Cluster>([], []);
    } else {
      var before, p := pieces[..|pieces| - 1], pieces[|pieces| - 1];
      var segments := Segments(before, g);
      var init, last := segments[..|segments| - 1], segments[|segments| - 1];
      SegmentsHoldWords(before, g);
      SegmentsStep(pieces, g);
      FlatStep(init, last);
      match KindOf(p)
      case Word =>
        var placed := Place(last, AfterWord(before), g.widthOf(p.text));
        PlaceUnclustered(last, AfterWord(before), g.widthOf(p.text));
        FlatStep(init, placed);
        UnclusteredAppend(Flat(init), last);
        UnclusteredAppend(Flat(init), placed);
        WidthsOfLast(WordsOf(before), p, g);
      case HardBreak =>
        FlatStep(segments, []);
        assert Flat(segments) + [] == Flat(segments);
      case _ =>
    }
  }

  lemma WidthsOfLast(words: seq<Piece>, p: Piece, g: Geometry)
    ensures WidthsOf(words + [p], g) == WidthsOf(words, g) + [g.widthOf(p.text)]
  {
  }

  lemma NoPieces(start: nat, g: Geometry)
    ensures Segments([], g) == [] + [[]] && Flat<Cluster>([]) == [] && Unclustered([]) == [] && WidthsOf([], g) == []
    ensures Greedy([], start, g) == (1, start) && GreedyLines([], g) == 0
  {
  }

  // What one more piece does to the segments.
  lemma SegmentsStep(pieces: seq<Piece>, g: Geometry)
    requires pieces != []
    ensures var before, p := pieces[..|pieces| - 1], pieces[|pieces| - 1];
      var segments := Segments(before, g);
      var init, last := segments[..|segments| - 1], segments[|segments| - 1];
      && segments == init + [last]
      && Segments(pieces, g) ==
           match KindOf(p)
           case HardBreak => segments + [[]]
           case Word => init + [Place(last, AfterWord(before), g.widthOf(p.text))]
           case _ => segments
  {
    hide KindOf, AfterWord, Place;
    var before, p := pieces[..|pieces| - 1], pieces[|pieces| - 1];
    var segments := Segments(before, g);
    var n := |segments| - 1;
    assert segments == segments[..n] + [segments[n]];
    var placed := Place(segments[n], AfterWord(before), g.widthOf(p.text));
    assert segments[n := placed] == segments[..n] + [placed];
  }

  // Clusters on a line with single spaces between them.
  function LineWidth(start: nat, line: seq<Cluster>): nat {
    if line == [] then start
    else LineWidth(start, line[..|line| - 1]) + Breadth(line[|line| - 1]) + if |line| == 1 then 0 else 1
  }

  // A line's own start: the segment's for its first line, the continuation for the others.
  function LineStart(i: nat, start: nat, g: Geometry): nat {
    if i == 0 then start else g.continuation
  }

  ghost predicate LayoutFits(layout: seq<seq<Cluster>>, start: nat, g: Geometry) {
    forall i :: 0 <= i < |layout| ==> LineWidth(LineStart(i, start, g), layout[i]) <= g.width
  }

  // Greedy stays ahead: with as many lines as another layout it has come no further to the right.
  lemma {:induction false} GreedyAhead(layout: seq<seq<Cluster>>, words: seq<Cluster>, start: nat, g: Geometry)
    requires IsLayout(layout, words) && LayoutFits(layout, start, g) && words != []
    ensures layout != []
    ensures Greedy(words, start, g).0 <= |layout|
    ensures Greedy(words, start, g).0 == |layout| ==>
      Greedy(words, start, g).1 <= LineWidth(LineStart(|layout| - 1, start, g), layout[|layout| - 1])
    decreases |words|
  {
    hide Greedy;
    var n := |layout| - 1;
    var line := layout[n];
    var k := |line| - 1;
    var c := line[k];
    var init := words[..|words| - 1];
    assert words == Flat(layout[..n]) + line;
    assert words == init + [c] && init == Flat(layout[..n]) + line[..k];
    GreedyStep(init, c, start, g);
    if k == 0 {
      LineGrows(line, LineStart(n, start, g));
      assert line[..0] == [];
      if n > 0 {
        assert init == Flat(layout[..n]);
        GreedyAhead(layout[..n], init, start, g);
      } else {
        assert init == [];
      }
    } else {
      var shorter := layout[n := line[..k]];
      assert shorter[..n] == layout[..n];
      assert IsLayout(shorter, init);
      GreedyAhead(shorter, init, start, g);
      LineGrows(line, LineStart(n, start, g));
    }
  }

  lemma LineGrows(line: seq<Cluster>, start: nat)
    requires line != []
    ensures LineWidth(start, line) ==
      LineWidth(start, line[..|line| - 1]) + Breadth(line[|line| - 1]) + if |line| == 1 then 0 else 1
    ensures LineWidth(start, line) >= start + Breadth(line[|line| - 1])
    ensures |line| == 1 ==> LineWidth(start, line) == start + Breadth(line[0])
  {
    AtLeastStart(line[..|line| - 1], start);
  }

  lemma {:induction false} AtLeastStart(line: seq<Cluster>, start: nat)
    ensures LineWidth(start, line) >= start
  {
    if line != [] {
      AtLeastStart(line[..|line| - 1], start);
    }
  }

  // A fitting split into lines for every segment; an empty segment has no words to split.
  ghost predicate IsFittingLayout(layouts: seq<seq<seq<Cluster>>>, segments: seq<seq<Cluster>>, g: Geometry) {
    && |layouts| == |segments|
    && forall i :: 0 <= i < |segments| ==>
         IsLayout(layouts[i], segments[i]) && LayoutFits(layouts[i], StartOf(i, g), g)
  }

  // Lines of such a split; a hard break ends a line even when nothing is on it.
  function LayoutLines(layouts: seq<seq<seq<Cluster>>>): nat {
    if layouts == [] then 0
    else
      var n := |layouts| - 1;
      LayoutLines(layouts[..n]) + if layouts[n] == [] then 1 else |layouts[n]|
  }

  lemma {:induction false} GreedyIsFewest(layouts: seq<seq<seq<Cluster>>>, segments: seq<seq<Cluster>>, g: Geometry)
    requires IsFittingLayout(layouts, segments, g)
    ensures GreedyLines(segments, g) <= LayoutLines(layouts)
  {
    hide Greedy, IsLayout, LayoutFits;
    if segments != [] {
      var n := |segments| - 1;
      GreedyIsFewest(layouts[..n], segments[..n], g);
      if segments[n] == [] {
        NoPieces(StartOf(n, g), g);
      } else {
        GreedyAhead(layouts[n], segments[n], StartOf(n, g), g);
      }
    }
  }

  /** Optimality: no split of the words into fitting lines, keeping together what touches, has fewer lines than the
      wrapped output. */
  lemma FewestLines(pieces: seq<Piece>, g: Geometry, layouts: seq<seq<seq<Cluster>>>)
    requires IsFittingLayout(layouts, Segments(pieces, g), g)
    ensures |Widths(Wrapped(pieces, g), g)| <= LayoutLines(layouts)
  {
    hide Widths, Greedy, GreedyLines, EmitAll, Wrapped, Segments, IsFittingLayout, LayoutLines;
    WrapIsGreedy(pieces, g);
    GreedyIsFewest(layouts, Segments(pieces, g), g);
    WrappedWidths(pieces, g);
  }

  /* Splitting text into pieces. */

  // The words before the end of the text, and the word still open there.
  function Scan(text: string): (seq<string>, string) {
    if text == "" then ([], "")
    else
      var (words, open) := Scan(text[..|text| - 1]);
      var c := text[|text| - 1];
      if !IsWhitespace(c) then (words, open + [c])
      else if open == "" then (words, "")
      else (words + [open], "")
  }

  // The maximal runs of non-whitespace.
  function Words(text: string): seq<string> {
    var (words, open) := Scan(text);
    if open == "" then words else words + [open]
  }

  function Texts(pieces: seq<Piece>): (r: seq<string>)
    ensures |r| == |pieces| && forall i :: 0 <= i < |pieces| ==> r[i] == pieces[i].text
  {
    seq(|pieces|, i requires 0 <= i < |pieces| => pieces[i].text)
  }

  predicate AllStyled(pieces: seq<Piece>, style: Option<Style>) {
    forall i :: 0 <= i < |pieces| ==> pieces[i].style == style
  }

  // What splitting has produced when the text up to `done` is dealt with.
  predicate SplitUpTo(pieces: seq<Piece>, text: string, done: nat, style: Option<Style>)
    requires done <= |text|
  {
    && Scan(text[..done]) == (Texts(WordsOf(pieces)), "")
    && Separated(pieces) && !AfterWord(pieces) && AllStyled(pieces, style)
  }

  predicate NoWhitespace(s: string) {
    forall i :: 0 <= i < |s| ==> !IsWhitespace(s[i])
  }

  lemma {:induction false} ScanWord(text: string, start: nat, end: nat)
    requires start <= end <= |text| && NoWhitespace(text[start..end]) && Scan(text[..start]).1 == ""
    ensures Scan(text[..end]) == (Scan(text[..start]).0, text[start..end])
    decreases end
  {
    hide IsWhitespace;
    if start < end {
      assert text[..end][..end - 1] == text[..end - 1];
      assert text[start..end][..end - 1 - start] == text[start..end - 1];
      assert forall i :: 0 <= i < end - 1 - start ==> text[start..end - 1][i] == text[start..end][i];
      ScanWord(text, start, end - 1);
      assert text[start..end][end - 1 - start] == text[end - 1];
      assert text[start..end - 1] + [text[end - 1]] == text[start..end];
    } else {
      assert text[start..end] == "";
    }
  }

  lemma {:induction false} ScanBlanks(text: string, start: nat, end: nat)
    requires start < end <= |text| && AllWhitespace(text[start..end])
    ensures Scan(text[..end]) == (Words(text[..start]), "")
    decreases end
  {
    hide IsWhitespace;
    assert text[..end][..end - 1] == text[..end - 1];
    assert text[start..end][end - 1 - start] == text[end - 1];
    if start + 1 < end {
      assert text[start..end - 1] == text[start..end][..end - 1 - start];
      ScanBlanks(text, start, end - 1);
    }
  }

  lemma PushBlank(pieces: seq<Piece>, p: Piece)
    requires p.text != "" && AllWhitespace(p.text)
    ensures WordsOf(pieces + [p]) == WordsOf(pieces)
    ensures !AfterWord(pieces + [p]) && (Separated(pieces) ==> Separated(pieces + [p]))
  {
    assert (pieces + [p])[..|pieces|] == pieces;
  }

  lemma PushWord(pieces: seq<Piece>, p: Piece)
    requires p.text != "" && NoWhitespace(p.text)
    ensures WordsOf(pieces + [p]) == WordsOf(pieces) + [p] && p.text != "\n"
    ensures Separated(pieces) && !AfterWord(pieces) ==> Separated(pieces + [p])
  {
    assert (pieces + [p])[..|pieces|] == pieces;
    assert !IsWhitespace(p.text[0]);
    assert p.text != "\n" by {
      assert IsWhitespace("\n"[0]);
    }
  }

  // A newline that ends a run of whitespace.
  predicate EndsLine(text: string, i: nat)
    requires i < |text|
  {
    text[i] == '\n' && (i + 1 == |text| || !IsWhitespace(text[i + 1]))
  }

  // How many words stand before each such newline.
  function LineEnds(text: string, n: nat): seq<nat>
    requires n <= |text|
  {
    if n == 0 then []
    else if EndsLine(text, n - 1) then LineEnds(text, n - 1) + [|Words(text[..n])|]
    else LineEnds(text, n - 1)
  }

  // How many words stand before each hard break.
  function BreakPlaces(pieces: seq<Piece>): seq<nat> {
    if pieces == [] then []
    else
      var before := pieces[..|pieces| - 1];
      if KindOf(pieces[|pieces| - 1]).HardBreak? then BreakPlaces(before) + [|WordsOf(before)|]
      else BreakPlaces(before)
  }

  lemma BreakStep(pieces: seq<Piece>, p: Piece)
    ensures BreakPlaces(pieces + [p]) ==
      if p.text == "\n" then BreakPlaces(pieces) + [|WordsOf(pieces)|] else BreakPlaces(pieces)
  {
    assert (pieces + [p])[..|pieces|] == pieces;
  }

  // The pieces of one turn hold a hard break exactly when the whitespace is the end of a run, and a newline.
  lemma BreaksOfTurn(pieces: seq<Piece>, text: string, start: nat, index: nat, end: nat, style: Option<Style>)
    requires start <= end && index < end <= |text| && SplitUpTo(pieces, text, start, style)
    requires AllWhitespace(text[index..end]) && (end == |text| || !IsWhitespace(text[end]))
    requires start <= index ==> NoWhitespace(text[start..index])
    requires BreakPlaces(pieces) == LineEnds(text, index)
    ensures var words := if index > start then pieces + [Piece(text[start..index], style)] else pieces;
      BreakPlaces(words + [Piece(text[index..end], style)]) == LineEnds(text, index + 1)
  {
    hide IsWhitespace, Scan, WordsOf, Separated, AfterWord, KindOf, BreakPlaces;
    var blank := Piece(text[index..end], style);
    var words := if index > start then pieces + [Piece(text[start..index], style)] else pieces;
    SplitStep(pieces, text, start, index, end, style);
    BreakStep(words, blank);
    if index > start {
      var word := Piece(text[start..index], style);
      BreakStep(pieces, word);
      PushWord(pieces, word);
    }
    PushBlank(words, blank);
    if index + 1 < end {
      assert IsWhitespace(text[index..end][1]);
      assert |blank.text| != |"\n"|;
    } else {
      assert blank.text == [text[index]];
    }
  }

  lemma NoBreaks()
    ensures BreakPlaces([]) == []
  {
  }

  lemma NewlineIsWhitespace()
    ensures IsWhitespace('\n')
  {
  }

  lemma SplitNothing(text: string, style: Option<Style>)
    ensures SplitUpTo([], text, 0, style)
  {
  }

  // One turn of the splitting loop: the word before `index`, if any, and the whitespace from there to `end`.
  lemma SplitStep(pieces: seq<Piece>, text: string, start: nat, index: nat, end: nat, style: Option<Style>)
    requires start <= end && index < end <= |text| && SplitUpTo(pieces, text, start, style)
    requires AllWhitespace(text[index..end])
    requires start <= index ==> NoWhitespace(text[start..index])
    ensures var words := if index > start then pieces + [Piece(text[start..index], style)] else pieces;
      SplitUpTo(words + [Piece(text[index..end], style)], text, end, style)
  {
    hide IsWhitespace, Scan, WordsOf, Separated, AfterWord, KindOf;
    var blank := Piece(text[index..end], style);
    if index > start {
      var word := Piece(text[start..index], style);
      ScanWord(text, start, index);
      ScanBlanks(text, index, end);
      PushWord(pieces, word);
      PushBlank(pieces + [word], blank);
      assert Texts(WordsOf(pieces + [word])) == Texts(WordsOf(pieces)) + [word.text];
    } else {
      PushBlank(pieces, blank);
      if start < end {
        assert forall i :: 0 <= i < end - start ==> text[start..end][i] == text[index..end][i + start - index];
        ScanBlanks(text, start, end);
      }
    }
  }

  lemma SplitEnd(pieces: seq<Piece>, text: string, start: nat, style: Option<Style>)
    requires start <= |text| && SplitUpTo(pieces, text, start, style) && NoWhitespace(text[start..])
    ensures var all := if start < |text| then pieces + [Piece(text[start..], style)] else pieces;
      && Texts(WordsOf(all)) == Words(text) && Separated(all) && AllStyled(all, style)
      && BreakPlaces(all) == BreakPlaces(pieces)
  {
    hide IsWhitespace, Scan, WordsOf, Separated, AfterWord, KindOf, BreakPlaces;
    assert text[..|text|] == text && text[start..|text|] == text[start..];
    if start < |text| {
      var word := Piece(text[start..], style);
      BreakStep(pieces, word);
      ScanWord(text, start, |text|);
      PushWord(pieces, word);
      assert Texts(WordsOf(pieces + [word])) == Texts(WordsOf(pieces)) + [word.text];
    }
  }

  /** Splits a text run into words and whitespace. Every tail of a longer run of whitespace comes out again, which
      does not change the words but makes a hard break of each run that ends in a newline. */
  method PushWords(text: string, style: Option<Style>) returns (pieces: seq<Piece>)
    ensures Texts(WordsOf(pieces)) == Words(text)
    ensures Separated(pieces) && AllStyled(pieces, style)
    ensures BreakPlaces(pieces) == LineEnds(text, |text|)
  {
    hide IsWhitespace, KindOf, Scan, WordsOf, Separated, AfterWord, SplitUpTo, BreakPlaces;
    pieces := [];
    var start := 0;
    SplitNothing(text, style);
    assert BreakPlaces([]) == [] by { NoBreaks(); }
    for index := 0 to |text|
      invariant start <= |text| && SplitUpTo(pieces, text, start, style)
      invariant start <= index ==> NoWhitespace(text[start..index])
      invariant forall i :: index <= i < start ==> IsWhitespace(text[i])
      invariant BreakPlaces(pieces) == LineEnds(text, index)
    {
      if !IsWhitespace(text[index]) {
        assert text[start..index + 1] == text[start..index] + [text[index]];
        assert !EndsLine(text, index) by { NewlineIsWhitespace(); }
        continue;
      }
      var end := index + 1;
      while end < |text| && IsWhitespace(text[end])
        invariant index < end <= |text| && AllWhitespace(text[index..end])
      {
        assert text[index..end + 1] == text[index..end] + [text[end]];
        end := end + 1;
      }
      SplitStep(pieces, text, start, index, end, style);
      BreaksOfTurn(pieces, text, start, index, end, style);
      if index > start {
        pieces := pieces + [Piece(text[start..index], style)];
      }
      pieces := pieces + [Piece(text[index..end], style)];
      assert forall i :: index <= i < end ==> text[i] == text[index..end][i - index];
      start := end;
    }
    assert text[start..|text|] == text[start..];
    SplitEnd(pieces, text, start, style);
    if start < |text| {
      pieces := pieces + [Piece(text[start..], style)];
    }
  }
}
