/**
 Messages to a terminal: the sender packs six-bit display codes three to a word, selecting the
 character memory as it goes; the terminal plots them, keeping its state in bits of one byte.
 */
module BlackBox {
  import NiuFraming
  import HostRing
  import Screen
  import opened Sequences

  /** A character of a message: seven bits, and not the one that ends it. */
  type char7 = c: int | 0 < c < 128 witness 32

  const UNCOVER := 63
  const SELECT := 16
  const FORMFEED := 12
  const RETURN := 13
  const SEMICOLON := 59

  /** Eight entries of the conversion table from ASCII to display code. */
  function CdcRow(r: int): (row: seq<int>)
    ensures |row| == 8
    ensures forall k | 0 <= k < 8 :: 0 <= row[k] < 64 && (row[k] == UNCOVER <==> r == 7 && k == 3)
  {
    if r == 4 then [45, 54, 52, 48, 43, 51, 55, 56]
    else if r == 5 then [41, 42, 39, 37, 46, 38, 47, 40]
    else if r == 6 then [27, 28, 29, 30, 31, 32, 33, 34]
    else if r == 7 then [35, 36, 0, UNCOVER, 58, 44, 59, 57]
    else if r == 8 then [60, 1, 2, 3, 4, 5, 6, 7]
    else if r == 9 || r == 13 then [8, 9, 10, 11, 12, 13, 14, 15]
    else if r == 10 || r == 14 then [16, 17, 18, 19, 20, 21, 22, 23]
    else if r == 11 then [24, 25, 26, 49, 61, 50, 62, 53]
    else if r == 12 then [0, 1, 2, 3, 4, 5, 6, 7]
    else if r == 15 then [24, 25, 26, 49, 0, 0, 0, 0]
    else [0, 0, 0, 0, 0, 0, 0, 0]
  }

  predicate IsUpper(c: char7) { 65 <= c <= 90 }

  function ToLower(c: char7): char7 {
    if IsUpper(c) then c + 32 else c
  }

  function AsciiToCdc(c: char7): (code: int)
    ensures 0 <= code < 64
    ensures code == UNCOVER <==> c == SEMICOLON
  {
    CdcRow(c / 8)[c % 8]
  }

  /** Eight entries of the conversion table from display code to ASCII, which is a table of its own. */
  function AsciiRow(r: int): (row: string)
    ensures |row| == 8
  {
    if r == 0 then ":ABCDEFG"
    else if r == 1 then "HIJKLMNO"
    else if r == 2 then "PQRSTUVW"
    else if r == 3 then "XYZ01234"
    else if r == 4 then "56789+-*"
    else if r == 5 then "/()$= ,."
    else if r == 6 then "#[]%\"_!&"
    else "'?<>@\\^;"
  }

  function CdcToAscii(code: int): char
    requires 0 <= code < 64
  {
    AsciiRow(code / 8)[code % 8]
  }

  /** What a character comes back as: lower case letters and the left brace are 32 lower, as capitals and the
      left bracket, and what has no display code is a colon. */
  function Printed(c: char7): int {
    if 32 <= c < 96 then c else if 97 <= c <= 123 then c - 32 else 58
  }

  /** The two tables are inverses, but that lower case letters have the codes of upper case ones. */
  lemma TablesInvert(c: char7)
    ensures CdcToAscii(AsciiToCdc(c)) as int == Printed(c)
  {
    if c < 32 {
      OthersInvert(c);
    } else if c < 48 {
      SignsInvert(c);
    } else if c < 64 {
      DigitsInvert(c);
    } else if c < 80 {
      CapitalsInvert(c);
    } else if c < 96 {
      MoreCapitalsInvert(c);
    } else if c < 112 {
      MoreLettersInvert(c);
    } else {
      LettersInvert(c);
    }
  }

  lemma OthersInvert(c: char7)
    requires c < 32
    ensures CdcToAscii(AsciiToCdc(c)) as int == 58
  {
  }

  lemma SignsInvert(c: char7)
    requires 32 <= c < 48
    ensures CdcToAscii(AsciiToCdc(c)) as int == c
  {
  }

  lemma DigitsInvert(c: char7)
    requires 48 <= c < 64
    ensures CdcToAscii(AsciiToCdc(c)) as int == c
  {
  }

  lemma CapitalsInvert(c: char7)
    requires 64 <= c < 80
    ensures CdcToAscii(AsciiToCdc(c)) as int == c
  {
  }

  lemma MoreCapitalsInvert(c: char7)
    requires 80 <= c < 96
    ensures CdcToAscii(AsciiToCdc(c)) as int == c
  {
  }

  lemma MoreLettersInvert(c: char7)
    requires 96 <= c < 112
    ensures CdcToAscii(AsciiToCdc(c)) as int == if c == 96 then 58 else c - 32
  {
  }

  lemma LettersInvert(c: char7)
    requires 112 <= c
    ensures CdcToAscii(AsciiToCdc(c)) as int == if c <= 123 then c - 32 else 58
  {
  }

  /** The display code of a character. */
  function CodeOf(c: char7): int {
    AsciiToCdc(ToLower(c))
  }

  /** The codes that select the character memory, if it is not the one already selected. */
  function Selecting(upper: bool, shift: bool): seq<int> {
    if upper == shift then [] else [UNCOVER, SELECT + if upper then 1 else 0]
  }

  /** The codes of a message when the sender is known to be shifted or not. */
  function Codes(msg: seq<char7>, shift: bool): seq<int> {
    if msg == [] then []
    else
      var upper := IsUpper(msg[0]);
      Selecting(upper, shift) + ([CodeOf(msg[0])] + Codes(msg[1..], upper))
  }

  function Padding(n: nat): (r: seq<int>)
    ensures |r| == n
  {
    seq(n, i => UNCOVER)
  }

  /** The three codes of each word, in order. */
  function Unpacked(ws: seq<int>): (r: seq<int>)
    ensures |r| == 3 * |ws|
  {
    if ws == [] then [] else [ws[0] / 4096 % 64, ws[0] / 64 % 64, ws[0] % 64] + Unpacked(ws[1..])
  }

  /** Words of character data: bit 18 is set. */
  predicate DataWords(ws: seq<int>) {
    forall i | 0 <= i < |ws| :: 0x4_0000 <= ws[i] < 0x8_0000
  }

  lemma {:induction false} UnpackedAppend(ws: seq<int>, w: int)
    ensures Unpacked(ws + [w]) == Unpacked(ws) + [w / 4096 % 64, w / 64 % 64, w % 64]
  {
    if ws != [] {
      assert (ws + [w])[1..] == ws[1..] + [w];
      UnpackedAppend(ws[1..], w);
    }
  }

  /** A partly filled word: a one bit, and below it the codes it holds. */
  predicate Holds(w: int, held: seq<int>) {
    && (forall i | 0 <= i < |held| :: 0 <= held[i] < 64)
    && match |held|
       case 0 => w == 1
       case 1 => w == 64 + held[0]
       case 2 => w == 4096 + 64 * held[0] + held[1]
       case _ => |held| == 3 && w == 0x4_0000 + 4096 * held[0] + 64 * held[1] + held[2]
  }

  lemma HoldsMore(w: int, held: seq<int>, code: int)
    requires Holds(w, held) && |held| < 3 && 0 <= code < 64
    ensures Holds(w * 64 + code, held + [code])
  {
  }

  lemma FullWord(w: int, held: seq<int>)
    requires Holds(w, held) && |held| == 3
    ensures 0x4_0000 <= w < 0x8_0000 && [w / 4096 % 64, w / 64 % 64, w % 64] == held
  {
    assert w / 64 == 4096 + 64 * held[0] + held[1];
    assert w / 4096 == 64 + held[0];
  }

  /** The start of every message leaves one place in its first word. */
  const START: seq<int> := [UNCOVER, SELECT]

  /** Words that, unpacked, are the start, the codes of a message and what fills the last word. */
  ghost predicate Encodes(ws: seq<int>, msg: seq<char7>) {
    DataWords(ws) && exists padding: nat | padding < 3 :: Unpacked(ws) == START + Codes(msg, false) + Padding(padding)
  }

  lemma Beginning()
    ensures Holds(0x1fd0, START) && Unpacked([]) == [] && DataWords([])
  {
  }

  lemma CodesStep(codes: seq<int>, msg: seq<char7>, i: nat, shift: bool)
    requires i < |msg|
    ensures var upper := IsUpper(msg[i]);
            codes + Codes(msg[i..], shift)
            == (codes + Selecting(upper, shift) + [CodeOf(msg[i])]) + Codes(msg[i + 1..], upper)
  {
    assert msg[i..][1..] == msg[i + 1..];
  }

  lemma NoCodes(codes: seq<int>, msg: seq<char7>, shift: bool)
    ensures codes + Codes(msg[|msg|..], shift) == codes
  {
  }

  lemma Finish(ws: seq<int>, w: int, held: seq<int>, padding: nat, codes: seq<int>)
    requires DataWords(ws) && Holds(w, held + Padding(padding)) && |held| + padding == 3
    requires Unpacked(ws) + held == codes
    ensures DataWords(ws + [w]) && Unpacked(ws + [w]) == codes + Padding(padding)
  {
    UnpackedAppend(ws, w);
    FullWord(w, held + Padding(padding));
  }

  class Sender {
    var sent: seq<int>

    method NiuSendWord(word: int)
      modifies this
      ensures sent == old(sent) + [word]
    {
      sent := sent + [word];
    }

    /** What is sent, unpacked, is the codes put so far but for those still held. */
    ghost predicate Progress(before: seq<int>, w: int, cc: nat, held: seq<int>, codes: seq<int>)
      reads this
    {
      && |before| <= |sent| && sent[..|before|] == before && DataWords(sent[|before|..])
      && Holds(w, held) && cc == |held| < 3
      && Unpacked(sent[|before|..]) + held == codes
    }

    /** Put a code in the word, and send the word when it is full. */
    method Put(ghost before: seq<int>, w: int, cc: nat, code: int, ghost held: seq<int>, ghost codes: seq<int>)
        returns (w1: int, cc1: nat, ghost held1: seq<int>)
      requires Progress(before, w, cc, held, codes) && 0 <= code < 64
      modifies this
      ensures Progress(before, w1, cc1, held1, codes + [code])
    {
      HoldsMore(w, held, code);
      ghost var ws := sent[|before|..];
      held1 := held + [code];
      w1 := w * 64 + code;
      cc1 := cc + 1;
      assert Unpacked(ws) + held1 == codes + [code];
      if cc1 == 3 {
        FullWord(w1, held1);
        UnpackedAppend(ws, w1);
        NiuSendWord(w1);
        assert sent[|before|..] == ws + [w1];
        held1 := [];
        cc1 := 0;
        w1 := 1;
      }
      hide Holds;
    }

    /** Send a character, behind the codes that select its character memory if they are needed. */
    method SendCharacter(c: char7, shift: bool, w: int, cc: nat,
                         ghost before: seq<int>, ghost held: seq<int>, ghost codes: seq<int>)
        returns (shift1: bool, w1: int, cc1: nat, ghost held1: seq<int>)
      requires Progress(before, w, cc, held, codes)
      modifies this
      ensures shift1 == IsUpper(c)
      ensures Progress(before, w1, cc1, held1, codes + Selecting(IsUpper(c), shift) + [CodeOf(c)])
    {
      hide Holds, AsciiToCdc, Sender.Progress;
      shift1, w1, cc1, held1 := shift, w, cc, held;
      var character := c;
      ghost var selected := codes;
      if IsUpper(c) {
        character := ToLower(c);
        if !shift {
          w1, cc1, held1 := Put(before, w1, cc1, UNCOVER, held1, selected);
          selected := selected + [UNCOVER];
          w1, cc1, held1 := Put(before, w1, cc1, SELECT + 1, held1, selected);
          selected := selected + [SELECT + 1];
          shift1 := true;
        }
      } else if shift {
        w1, cc1, held1 := Put(before, w1, cc1, UNCOVER, held1, selected);
        selected := selected + [UNCOVER];
        w1, cc1, held1 := Put(before, w1, cc1, SELECT, held1, selected);
        selected := selected + [SELECT];
        shift1 := false;
      }
      assert selected == codes + Selecting(IsUpper(c), shift);
      w1, cc1, held1 := Put(before, w1, cc1, AsciiToCdc(character), held1, selected);
    }

    /** Send a message. */
    method NiuSendstr(p: seq<char7>)
      modifies this
      ensures |old(sent)| <= |sent| && sent[..|old(sent)|] == old(sent)
      ensures Encodes(sent[|old(sent)|..], p)
    {
      hide Holds, Codes, Unpacked, AsciiToCdc, DataWords, CodeOf;
      var cc: nat, w := 2, 0x1fd0;
      var shift := false;
      var i := 0;
      ghost var held := START;
      ghost var codes := START;
      Beginning();
      assert sent[|old(sent)|..] == [];
      assert p[0..] == p;
      while i < |p|
        invariant 0 <= i <= |p|
        invariant Progress(old(sent), w, cc, held, codes)
        invariant codes + Codes(p[i..], shift) == START + Codes(p, false)
      {
        CodesStep(codes, p, i, shift);
        ghost var sentCodes := codes + Selecting(IsUpper(p[i]), shift) + [CodeOf(p[i])];
        shift, w, cc, held := SendCharacter(p[i], shift, w, cc, old(sent), held, codes);
        codes := sentCodes;
        i := i + 1;
      }
      NoCodes(codes, p, shift);
      SendRest(w, cc, old(sent), held, codes, p);
    }

    /** Fill the last word, if there is anything in it, and send it. */
    method SendRest(w: int, cc: nat, ghost before: seq<int>, ghost held: seq<int>, ghost codes: seq<int>,
                    ghost p: seq<char7>)
      requires Progress(before, w, cc, held, codes) && codes == START + Codes(p, false)
      modifies this
      ensures |before| <= |sent| && sent[..|before|] == before && Encodes(sent[|before|..], p)
    {
      hide Holds, Codes, Unpacked, DataWords;
      ghost var ws := sent[|before|..];
      if cc > 0 {
        ghost var padding := 3 - cc;
        assert held == held + Padding(0);
        var word, count := w, cc;
        ghost var filled := held;
        while count < 3
          invariant |held| <= count == |filled| <= 3 && filled == held + Padding(count - |held|)
          invariant Holds(word, filled) && sent == old(sent)
        {
          HoldsMore(word, filled, UNCOVER);
          word := word * 64 + UNCOVER;
          filled := filled + [UNCOVER];
          count := count + 1;
        }
        Finish(ws, word, held, padding, codes);
        NiuSendWord(word);
        assert sent == old(sent) + [word] && sent[..|before|] == old(sent)[..|before|];
        assert sent[|before|..] == ws + [word];
      } else {
        assert Unpacked(ws) == codes + Padding(0);
      }
    }
  }

  /** A character shown: where, from which character memory, and its display code. */
  datatype Glyph = Glyph(x: int, y: int, charset: nat, code: int)

  /** The terminal's writing state: what the control byte holds, and the writing position. */
  datatype Station = Station(uncover: bool, reverse: bool, large: bool, charset: nat, vertical: bool, x: int, y: int)
  {
    /** Steps along the line and across it; both are doubled in large size. */
    function Along(): int { (if reverse then -8 else 8) * Size() }

    function Across(): int { (if vertical then -16 else 16) * Size() }

    function Size(): int { if large then 2 else 1 }

    /** The position moved along the line, or across it: x and y change places in vertical writing. */
    function Onward(n: int): Station {
      if vertical then this.(y := (y + n) % 512) else this.(x := (x + n) % 512)
    }

    /** The same with a given position along and across the line. */
    function At(vertically: bool, along: int, across: int): Station {
      this.(x := if vertically then across else along, y := if vertically then along else across)
    }

    function Sideways(n: int): Station {
      if vertical then this.(x := (x + n) % 512) else this.(y := (y + n) % 512)
    }
  }

  /** Where one code leaves the terminal. */
  function Plot(s: Station, margin: int, c: int): Station {
    if c == UNCOVER then s.(uncover := true)
    else if !s.uncover then s.Onward(s.Along())
    else Control(s.(uncover := false), margin, c)
  }

  /** The control functions, selected by a code that follows the uncover code. */
  function Control(s: Station, margin: int, c: int): Station {
    match c
    case 8 => s.Onward(-s.Along())
    case 9 => s.Onward(s.Along())
    case 10 => s.Sideways(-s.Across())
    case 11 => s.Sideways(s.Across())
    case 12 =>
      if s.vertical then s.(y := s.Across() - 1, x := if s.reverse then 512 - s.Along() else 0)
      else s.(y := 512 - s.Across(), x := if s.reverse then 512 - s.Along() else 0)
    case 13 =>
      if s.vertical then s.(y := margin, x := (s.x - s.Across()) % 512)
      else s.(x := margin, y := (s.y - s.Across()) % 512)
    case 14 => s.Sideways(s.Across() / 16 * 5)
    case 15 => s.Sideways(-(s.Across() / 16 * 5))
    case 24 => s.(vertical := false)
    case 25 => s.(vertical := true)
    case 26 => s.(reverse := false)
    case 27 => s.(reverse := true)
    case 28 => s.(large := false)
    case 29 => s.(large := true)
    case _ => if 16 <= c <= 23 then s.(charset := c - SELECT) else s
  }

  /** Where the control functions lead in normal writing: a character is 8 wide and 16 high. */
  lemma ControlsMove(s: Station, margin: int)
    requires s.uncover && !s.reverse && !s.vertical && !s.large
    ensures var t := s.(uncover := false);
            && Plot(s, margin, 8) == t.(x := (s.x - 8) % 512) && Plot(s, margin, 9) == t.(x := (s.x + 8) % 512)
            && Plot(s, margin, 10) == t.(y := (s.y - 16) % 512) && Plot(s, margin, 11) == t.(y := (s.y + 16) % 512)
            && Plot(s, margin, 12) == t.(x := 0, y := 496)
            && Plot(s, margin, 13) == t.(x := margin, y := (s.y - 16) % 512)
            && Plot(s, margin, 14) == t.(y := (s.y + 5) % 512) && Plot(s, margin, 15) == t.(y := (s.y - 5) % 512)
  {
  }

  /** In any writing these pairs undo each other: a character and a backspace, a tab and a backspace, a line
      feed and a vertical tab, a superscript and a subscript. */
  lemma ControlsUndo(s: Station, margin: int, c: int)
    requires Inside(s) && !s.uncover && c != UNCOVER
    ensures Controlled(Plot(s, margin, c), margin, 8) == s
    ensures Controlled(Controlled(s, margin, 9), margin, 8) == s
    ensures Controlled(Controlled(s, margin, 10), margin, 11) == s
    ensures Controlled(Controlled(s, margin, 14), margin, 15) == s
    ensures Controlled(s, margin, 9) == Plot(s, margin, c)
  {
    hide Station.Onward, Station.Sideways, Station.Along, Station.Across;
    MovesKeepRest(s, s.Along());
    MovesKeepRest(s, -s.Across());
    MovesKeepRest(s, s.Across() / 16 * 5);
  }

  /** A step and the step back, and what they depend on. */
  lemma MovesKeepRest(s: Station, n: int)
    requires Inside(s)
    ensures s.Onward(n).Onward(-n) == s && s.Sideways(n).Sideways(-n) == s
    ensures var t := s.Onward(n); t.uncover == s.uncover && t.Along() == s.Along() && t.Across() == s.Across()
    ensures var t := s.Sideways(n); t.uncover == s.uncover && t.Along() == s.Along() && t.Across() == s.Across()
    ensures s.(uncover := true).Onward(n) == s.Onward(n).(uncover := true)
    ensures s.(uncover := true).Along() == s.Along() && s.(uncover := true).Across() == s.Across()
  {
    StepBack(s.x, n);
    StepBack(s.y, n);
  }

  lemma StepBack(x: int, n: int)
    requires 0 <= x < 512
    ensures ((x + n) % 512 - n) % 512 == x
  {
  }

  /** A control function: the uncover code and a code. */
  function Controlled(s: Station, margin: int, c: int): Station {
    Plot(Plot(s, margin, UNCOVER), margin, c)
  }

  /** The writing position is on the screen. */
  predicate Inside(s: Station) {
    Screen.OnScreen(Screen.Point(s.x, s.y))
  }

  /** Codes that put the position off the screen: a form feed in reverse or vertical writing, and a
      carriage return to a margin that is off the screen. */
  predicate Strays(s: Station, margin: int, c: int) {
    s.uncover && ((c == FORMFEED && (s.reverse || s.vertical)) || (c == RETURN && !(0 <= margin < 512)))
  }

  /** One code leaves the position on the screen if and only if it is none of these. */
  lemma StaysInsideIff(s: Station, margin: int, c: int)
    requires Inside(s)
    ensures Inside(Plot(s, margin, c)) <==> !Strays(s, margin, c)
  {
  }

  /** In reverse writing a form feed leaves the position at 520, in vertical writing at -17. */
  lemma FormFeedStrays(s: Station, margin: int)
    requires s.uncover && !s.large
    ensures s.reverse && !s.vertical ==> Plot(s, margin, FORMFEED).x == 520
    ensures s.vertical ==> Plot(s, margin, FORMFEED).y == -17
  {
  }

  /** What one code shows. */
  function Draws(s: Station, c: int): seq<Glyph> {
    if c == UNCOVER || s.uncover then [] else [Glyph(s.x, s.y, s.charset, c)]
  }

  /** The fields of the control byte. */
  function CharsetBits(ccr: bv8): nat {
    ((ccr & 0x0e) >> 1) as nat
  }

  function Put(ccr: bv8, bit: bv8, on: bool): bv8 {
    if on then ccr | bit else ccr & !bit
  }

  predicate Has(ccr: bv8, bit: bv8) {
    ccr & bit != 0
  }

  function PutCharset(ccr: bv8, i: int): bv8
    requires 0 <= i < 8
  {
    (ccr & !0x0e) | ((i as bv8) << 1)
  }

  const UNCOVERED: bv8 := 0x80
  const REVERSE: bv8 := 0x40
  const LARGE: bv8 := 0x20
  const VERTICAL: bv8 := 0x01

  /** Setting a bit sets that bit and no other. */
  lemma PutBit(ccr: bv8, bit: bv8, on: bool, other: bv8)
    requires bit in {UNCOVERED, REVERSE, LARGE, VERTICAL} && other in {UNCOVERED, REVERSE, LARGE, VERTICAL}
    ensures Has(Put(ccr, bit, on), other) == if other == bit then on else Has(ccr, other)
    ensures CharsetBits(Put(ccr, bit, on)) == CharsetBits(ccr)
  {
    assert Put(ccr, bit, on) & 0x0e == ccr & 0x0e;
  }

  lemma PutCharsetBits(ccr: bv8, i: int, other: bv8)
    requires 0 <= i < 8 && other in {UNCOVERED, REVERSE, LARGE, VERTICAL}
    ensures CharsetBits(PutCharset(ccr, i)) == i
    ensures Has(PutCharset(ccr, i), other) == Has(ccr, other)
  {
  }

  class Terminal {
    var ccr: bv8
    var currentX: int
    var currentY: int
    var margin: int
    var shown: seq<Glyph>

    function View(): Station
      reads this`ccr, this`currentX, this`currentY
    {
      Station(Has(ccr, UNCOVERED), Has(ccr, REVERSE), Has(ccr, LARGE), CharsetBits(ccr), Has(ccr, VERTICAL),
              currentX, currentY)
    }

    method Set(bit: bv8, on: bool)
      requires bit in {UNCOVERED, REVERSE, LARGE, VERTICAL}
      modifies this`ccr
      ensures View() == match bit
                        case 0x80 => old(View()).(uncover := on)
                        case 0x40 => old(View()).(reverse := on)
                        case 0x20 => old(View()).(large := on)
                        case _ => old(View()).(vertical := on)
    {
      hide Put, Has, CharsetBits;
      PutBit(ccr, bit, on, UNCOVERED);
      PutBit(ccr, bit, on, REVERSE);
      PutBit(ccr, bit, on, LARGE);
      PutBit(ccr, bit, on, VERTICAL);
      ccr := Put(ccr, bit, on);
    }

    method SetCmem(i: int)
      requires 0 <= i < 8
      modifies this`ccr
      ensures View() == old(View()).(charset := i)
    {
      hide PutCharset, Has, CharsetBits;
      PutCharsetBits(ccr, i, UNCOVERED);
      PutCharsetBits(ccr, i, REVERSE);
      PutCharsetBits(ccr, i, LARGE);
      PutCharsetBits(ccr, i, VERTICAL);
      ccr := PutCharset(ccr, i);
    }

    /** A control function, on local copies of the positions along and across the line. */
    method ControlCode(c: int, vertical: bool, deltax: int, deltay: int, reverse: bool, along: int, across: int)
        returns (cx: int, cy: int)
      requires !View().uncover && vertical == View().vertical && reverse == View().reverse
      requires deltax == View().Along() && deltay == View().Across()
      requires View().At(vertical, along, across) == View()
      modifies this`ccr
      ensures View().At(vertical, cx, cy) == Control(old(View()), margin, c)
    {
      hide Has, CharsetBits;
      cx, cy := along, across;
      var supdelta := deltay / 16 * 5;
      match c {
        case 8 => cx := (cx - deltax) % 512;
        case 9 => cx := (cx + deltax) % 512;
        case 10 => cy := (cy - deltay) % 512;
        case 11 => cy := (cy + deltay) % 512;
        case 12 =>
          if vertical {
            cx := deltay - 1;
            cy := if reverse then 512 - deltax else 0;
          } else {
            cy := 512 - deltay;
            cx := if reverse then 512 - deltax else 0;
          }
        case 13 =>
          cx := margin;
          cy := (cy - deltay) % 512;
        case 14 => cy := (cy + supdelta) % 512;
        case 15 => cy := (cy - supdelta) % 512;
        case 24 => Set(VERTICAL, false);
        case 25 => Set(VERTICAL, true);
        case 26 => Set(REVERSE, false);
        case 27 => Set(REVERSE, true);
        case 28 => Set(LARGE, false);
        case 29 => Set(LARGE, true);
        case _ =>
          if 16 <= c <= 23 {
            SetCmem(c - 16);
          }
      }
    }

    method PlotChar(code: int)
      modifies this`ccr, this`currentX, this`currentY, this`shown
      ensures View() == Plot(old(View()), margin, code % 64)
      ensures shown == old(shown) + Draws(old(View()), code % 64)
    {
      hide Has, CharsetBits, Control;
      var vertical := Has(ccr, VERTICAL);
      var reverse := Has(ccr, REVERSE);
      var cx, cy := if vertical then currentY else currentX, if vertical then currentX else currentY;
      var deltax := if reverse then -8 else 8;
      var deltay := if vertical then -16 else 16;
      if Has(ccr, LARGE) {
        deltax := deltax * 2;
        deltay := deltay * 2;
      }
      var c := code % 64;
      if c == UNCOVER {
        Set(UNCOVERED, true);
        return;
      }
      if Has(ccr, UNCOVERED) {
        Set(UNCOVERED, false);
        cx, cy := ControlCode(c, vertical, deltax, deltay, reverse, cx, cy);
      } else {
        shown := shown + [Glyph(currentX, currentY, CharsetBits(ccr), c)];
        cx := (cx + deltax) % 512;
      }
      currentX := if vertical then cy else cx;
      currentY := if vertical then cx else cy;
    }

    /** A mode 3 word holds three codes. */
    method Mode3(d: int)
      modifies this`ccr, this`currentX, this`currentY, this`shown
      ensures View() == After(old(View()), margin, Unpacked([d]))
      ensures shown == old(shown) + Shown(old(View()), margin, Unpacked([d]))
    {
      hide Plot, Draws, After, Shown;
      var codes := [d / 4096 % 64, d / 64 % 64, d % 64];
      assert Unpacked([d]) == codes;
      ThreeCodes(View(), margin, codes);
      PlotChar(d / 4096);
      PlotChar(d / 64);
      PlotChar(d);
    }
  }

  /** Where a list of codes leaves the terminal, and what it shows. */
  function After(s: Station, margin: int, codes: seq<int>): Station
    decreases |codes|
  {
    if codes == [] then s else After(Plot(s, margin, codes[0]), margin, codes[1..])
  }

  function Shown(s: Station, margin: int, codes: seq<int>): seq<Glyph>
    decreases |codes|
  {
    if codes == [] then []
    else Draws(s, codes[0]) + Shown(Plot(s, margin, codes[0]), margin, codes[1..])
  }

  lemma OneCode(s: Station, margin: int, c: int)
    ensures After(s, margin, [c]) == Plot(s, margin, c) && Shown(s, margin, [c]) == Draws(s, c)
  {
    hide Plot, Draws;
    assert [c][1..] == [];
    assert After(Plot(s, margin, c), margin, []) == Plot(s, margin, c);
  }

  lemma TwoCodes(s: Station, margin: int, c: int, d: int)
    ensures var s1 := Plot(s, margin, c);
            && After(s, margin, [c, d]) == Plot(s1, margin, d)
            && Shown(s, margin, [c, d]) == Draws(s, c) + Draws(s1, d)
  {
    hide Plot, Draws, After, Shown;
    OneCode(s, margin, c);
    OneCode(Plot(s, margin, c), margin, d);
    AfterBoth(s, margin, [c], [d]);
    assert [c, d] == [c] + [d];
  }

  lemma ThreeCodes(s: Station, margin: int, c: seq<int>)
    requires |c| == 3
    ensures var s1 := Plot(s, margin, c[0]);
            var s2 := Plot(s1, margin, c[1]);
            && After(s, margin, c) == Plot(s2, margin, c[2])
            && Shown(s, margin, c) == Draws(s, c[0]) + Draws(s1, c[1]) + Draws(s2, c[2])
  {
    hide Plot, Draws, After, Shown;
    TwoCodes(s, margin, c[0], c[1]);
    OneCode(Plot(Plot(s, margin, c[0]), margin, c[1]), margin, c[2]);
    AfterBoth(s, margin, [c[0], c[1]], [c[2]]);
    assert c == [c[0], c[1]] + [c[2]];
  }

  lemma {:induction false} AfterBoth(s: Station, margin: int, a: seq<int>, b: seq<int>)
    ensures After(s, margin, a + b) == After(After(s, margin, a), margin, b)
    ensures Shown(s, margin, a + b) == Shown(s, margin, a) + Shown(After(s, margin, a), margin, b)
    decreases |a|
  {
    hide Plot, Draws;
    if a == [] {
      assert a + b == b;
    } else {
      assert (a + b)[1..] == a[1..] + b;
      AfterBoth(Plot(s, margin, a[0]), margin, a[1..], b);
    }
  }

  /** The characters of a message as they are meant to appear: upper case from character memory 1,
      everything else from 0, each a step further along the line. */
  function Intended(s: Station, msg: seq<char7>): (r: seq<Glyph>)
    ensures |r| == |msg|
    decreases |msg|
  {
    if msg == [] then []
    else [Glyph(s.x, s.y, if IsUpper(msg[0]) then 1 else 0, CodeOf(msg[0]))] + Intended(s.Onward(s.Along()), msg[1..])
  }

  function Moved(s: Station, n: nat): Station
    decreases n
  {
    if n == 0 then s else Moved(s.Onward(s.Along()), n - 1)
  }

  /** Only the uncover state and the character memory may differ. */
  predicate SameWriting(s: Station, t: Station) {
    t == s.(uncover := t.uncover, charset := t.charset)
  }

  /** Ready for a message: not uncovered, and the character memory is the sender's. */
  predicate Agreeing(s: Station, shift: bool) {
    !s.uncover && s.charset == if shift then 1 else 0
  }

  lemma SelectingAgrees(s: Station, margin: int, upper: bool, shift: bool)
    requires Agreeing(s, shift)
    ensures var t := After(s, margin, Selecting(upper, shift));
            Agreeing(t, upper) && SameWriting(s, t) && Shown(s, margin, Selecting(upper, shift)) == []
  {
    var codes := Selecting(upper, shift);
    if codes != [] {
      TwoCodes(s, margin, codes[0], codes[1]);
    }
  }

  /** A character that is not a semicolon appears, and moves the position along. */
  lemma CharacterAppears(s: Station, margin: int, c: char7)
    requires !s.uncover && c != SEMICOLON
    ensures After(s, margin, [CodeOf(c)]) == s.Onward(s.Along())
    ensures Shown(s, margin, [CodeOf(c)]) == [Glyph(s.x, s.y, s.charset, CodeOf(c))]
  {
    hide AsciiToCdc;
    OneCode(s, margin, CodeOf(c));
  }

  lemma {:induction false} CodesShown(s: Station, margin: int, msg: seq<char7>, shift: bool)
    requires Agreeing(s, shift) && SEMICOLON !in msg
    ensures Shown(s, margin, Codes(msg, shift)) == Intended(s, msg)
    ensures SameWriting(Moved(s, |msg|), After(s, margin, Codes(msg, shift)))
    decreases |msg|
  {
    hide CodeOf, After, Shown, Station.Onward, Station.Along;
    if msg == [] {
      NothingShown(s, margin);
    } else {
      var upper, code := IsUpper(msg[0]), CodeOf(msg[0]);
      var select := Selecting(upper, shift);
      var t := After(s, margin, select);
      SelectingAgrees(s, margin, upper, shift);
      CharacterAppears(t, margin, msg[0]);
      var u := t.Onward(t.Along());
      OnwardSame(s, t);
      var rest := Codes(msg[1..], upper);
      CodesShown(u, margin, msg[1..], upper);
      IntendedSame(s.Onward(s.Along()), u, msg[1..]);
      AfterBoth(t, margin, [code], rest);
      AfterBoth(s, margin, select, [code] + rest);
    }
  }

  lemma NothingShown(s: Station, margin: int)
    ensures Shown(s, margin, []) == [] && After(s, margin, []) == s
  {
  }

  lemma OnwardSame(s: Station, t: Station)
    requires SameWriting(s, t)
    ensures SameWriting(s.Onward(s.Along()), t.Onward(t.Along()))
    ensures t.Onward(t.Along()).uncover == t.uncover && t.Onward(t.Along()).charset == t.charset
  {
  }

  /** What is meant to appear does not depend on the uncover state or the character memory. */
  lemma {:induction false} IntendedSame(s: Station, t: Station, msg: seq<char7>)
    requires SameWriting(s, t)
    ensures Intended(s, msg) == Intended(t, msg) && SameWriting(Moved(s, |msg|), Moved(t, |msg|))
    decreases |msg|
  {
    if msg != [] {
      IntendedSame(s.Onward(s.Along()), t.Onward(t.Along()), msg[1..]);
    }
  }

  /** Whatever the terminal was doing, the start of a message makes it agree with the sender. */
  lemma StartAgrees(s: Station, margin: int)
    ensures var t := After(s, margin, START);
            Agreeing(t, false) && SameWriting(s, t) && Shown(s, margin, START) == []
  {
    TwoCodes(s, margin, UNCOVER, SELECT);
  }

  lemma {:induction false} PaddingShowsNothing(s: Station, margin: int, n: nat)
    ensures Shown(s, margin, Padding(n)) == [] && SameWriting(s, After(s, margin, Padding(n)))
    decreases n
  {
    if n > 0 {
      assert Padding(n)[1..] == Padding(n - 1);
      PaddingShowsNothing(s.(uncover := true), margin, n - 1);
    }
  }

  function Semicolons(msg: seq<char7>): nat {
    if msg == [] then 0 else Semicolons(msg[1..]) + if msg[0] == SEMICOLON then 1 else 0
  }

  lemma {:induction false} NoSemicolons(msg: seq<char7>)
    ensures Semicolons(msg) == 0 <==> SEMICOLON !in msg
  {
    if msg != [] {
      NoSemicolons(msg[1..]);
    }
  }

  lemma SelectingShowsNothing(s: Station, margin: int, upper: bool, shift: bool)
    ensures Shown(s, margin, Selecting(upper, shift)) == []
  {
    var codes := Selecting(upper, shift);
    if codes == [] {
      NothingShown(s, margin);
    } else {
      TwoCodes(s, margin, codes[0], codes[1]);
    }
  }

  lemma AtMostOne(s: Station, margin: int, c: char7)
    ensures |Shown(s, margin, [CodeOf(c)])| <= if c == SEMICOLON then 0 else 1
  {
    hide AsciiToCdc;
    OneCode(s, margin, CodeOf(c));
  }

  /** From any state, at most the characters that are not semicolons appear. */
  lemma {:induction false} Fewer(s: Station, margin: int, msg: seq<char7>, shift: bool)
    ensures |Shown(s, margin, Codes(msg, shift))| + Semicolons(msg) <= |msg|
    decreases |msg|
  {
    hide CodeOf, After, Shown;
    if msg == [] {
      NothingShown(s, margin);
    } else {
      var upper, code := IsUpper(msg[0]), CodeOf(msg[0]);
      var select := Selecting(upper, shift);
      var t := After(s, margin, select);
      var rest := Codes(msg[1..], upper);
      SelectingShowsNothing(s, margin, upper, shift);
      AtMostOne(t, margin, msg[0]);
      Fewer(After(t, margin, [code]), margin, msg[1..], upper);
      AfterBoth(t, margin, [code], rest);
      AfterBoth(s, margin, select, [code] + rest);
    }
  }

  /** What a transmission shows is what its codes show. */
  lemma TransmissionShows(s: Station, margin: int, ws: seq<int>, msg: seq<char7>)
    requires Encodes(ws, msg)
    ensures var t := After(s, margin, START);
            && Shown(s, margin, Unpacked(ws)) == Shown(t, margin, Codes(msg, false))
            && SameWriting(After(t, margin, Codes(msg, false)), After(s, margin, Unpacked(ws)))
  {
    hide After, Shown, Codes, Unpacked;
    var padding: nat :| padding < 3 && Unpacked(ws) == START + Codes(msg, false) + Padding(padding);
    var t := After(s, margin, START);
    var u := After(t, margin, Codes(msg, false));
    StartAgrees(s, margin);
    PaddingShowsNothing(u, margin, padding);
    AfterBoth(s, margin, START + Codes(msg, false), Padding(padding));
    AfterBoth(s, margin, START, Codes(msg, false));
  }

  /** From any prior state, a message appears as intended if and only if it has no semicolon. */
  lemma MessageShownIff(s: Station, margin: int, ws: seq<int>, msg: seq<char7>)
    requires Encodes(ws, msg)
    ensures Shown(s, margin, Unpacked(ws)) == Intended(s, msg) <==> SEMICOLON !in msg
    ensures SEMICOLON !in msg ==> SameWriting(Moved(s, |msg|), After(s, margin, Unpacked(ws)))
    ensures |Shown(s, margin, Unpacked(ws))| + Semicolons(msg) <= |msg|
  {
    hide After, Shown, Codes, Unpacked, Moved;
    TransmissionShows(s, margin, ws, msg);
    var t := After(s, margin, START);
    StartAgrees(s, margin);
    NoSemicolons(msg);
    Fewer(t, margin, msg, false);
    if SEMICOLON !in msg {
      CodesShown(t, margin, msg, false);
      IntendedSame(s, t, msg);
    }
  }

  lemma {:induction false} MovedInside(s: Station, n: nat)
    requires Inside(s)
    ensures Inside(Moved(s, n))
    decreases n
  {
    if n > 0 {
      MovedInside(s.Onward(s.Along()), n - 1);
    }
  }

  /** A message without a semicolon leaves the position on the screen. */
  lemma MessageStaysInside(s: Station, margin: int, ws: seq<int>, msg: seq<char7>)
    requires Encodes(ws, msg) && SEMICOLON !in msg && Inside(s)
    ensures Inside(After(s, margin, Unpacked(ws)))
  {
    hide After, Unpacked, Moved, Encodes;
    MessageShownIff(s, margin, ws, msg);
    MovedInside(s, |msg|);
  }

  /** A session of messages, each starting where the one before it ended. */
  ghost predicate EncodesAll(sends: seq<seq<int>>, msgs: seq<seq<char7>>) {
    |sends| == |msgs| && forall i | 0 <= i < |msgs| :: Encodes(sends[i], msgs[i])
  }

  lemma {:induction false} UnpackedBoth(a: seq<int>, b: seq<int>)
    ensures Unpacked(a + b) == Unpacked(a) + Unpacked(b)
  {
    if a == [] {
      assert a + b == b;
    } else {
      assert (a + b)[1..] == a[1..] + b;
      UnpackedBoth(a[1..], b);
    }
  }

  lemma {:induction false} IntendedBoth(s: Station, a: seq<char7>, b: seq<char7>)
    ensures Intended(s, a + b) == Intended(s, a) + Intended(Moved(s, |a|), b)
    decreases |a|
  {
    if a == [] {
      assert a + b == b;
    } else {
      assert (a + b)[1..] == a[1..] + b;
      IntendedBoth(s.Onward(s.Along()), a[1..], b);
    }
  }

  lemma {:induction false} SemicolonsBoth(a: seq<char7>, b: seq<char7>)
    ensures Semicolons(a + b) == Semicolons(a) + Semicolons(b)
  {
    if a == [] {
      assert a + b == b;
    } else {
      assert (a + b)[1..] == a[1..] + b;
      SemicolonsBoth(a[1..], b);
    }
  }

  lemma {:induction false} SessionShows(s: Station, margin: int, sends: seq<seq<int>>, msgs: seq<seq<char7>>)
    requires EncodesAll(sends, msgs)
    ensures var glyphs := Shown(s, margin, Unpacked(Joined(sends)));
            && (SEMICOLON !in Joined(msgs) ==> glyphs == Intended(s, Joined(msgs)))
            && |glyphs| + Semicolons(Joined(msgs)) <= |Joined(msgs)|
    decreases |sends|
  {
    hide After, Shown, Encodes, Unpacked, Intended, Semicolons;
    if sends == [] {
      SessionEmpty(s, margin);
    } else {
      var first, rest := msgs[0], Joined(msgs[1..]);
      var t := After(s, margin, Unpacked(sends[0]));
      MessageShownIff(s, margin, sends[0], first);
      SessionShows(t, margin, sends[1..], msgs[1..]);
      UnpackedBoth(sends[0], Joined(sends[1..]));
      AfterBoth(s, margin, Unpacked(sends[0]), Unpacked(Joined(sends[1..])));
      SemicolonsBoth(first, rest);
      IntendedBoth(s, first, rest);
      if SEMICOLON !in first {
        IntendedSame(Moved(s, |first|), t, rest);
      }
    }
  }

  lemma SessionEmpty(s: Station, margin: int)
    ensures Shown(s, margin, Unpacked([])) == [] == Intended(s, []) && Semicolons([]) == 0
  {
  }

  lemma {:induction false} AllSendable(sends: seq<seq<int>>, msgs: seq<seq<char7>>)
    requires EncodesAll(sends, msgs)
    ensures NiuFraming.Sendable(Joined(sends))
  {
    hide Unpacked, Codes;
    if sends != [] {
      assert Encodes(sends[0], msgs[0]);
      AllSendable(sends[1..], msgs[1..]);
    }
  }

  /**
   From the sender to the screen: the words of any number of messages, framed in bytes that
   arrive in any pieces, show exactly the intended characters, from any prior state of the
   terminal, if and only if no message holds a semicolon.
   */
  lemma EndToEnd(s: Station, margin: int, pieces: seq<seq<byte>>, sends: seq<seq<int>>, msgs: seq<seq<char7>>)
    requires EncodesAll(sends, msgs)
    requires Joined(pieces) == NiuFraming.Stream(Joined(sends))
    ensures var words := NiuFraming.Session([], pieces);
            Shown(s, margin, Unpacked(words)) == Intended(s, Joined(msgs)) <==> SEMICOLON !in Joined(msgs)
  {
    AllSendable(sends, msgs);
    assert [] + Joined(pieces) == Joined(pieces);
    NiuFraming.AnySegmentation([], pieces, Joined(sends));
    SessionShows(s, margin, sends, msgs);
    NoSemicolons(Joined(msgs));
  }

  lemma NeverAborts(sends: seq<seq<int>>, msgs: seq<seq<char7>>)
    requires EncodesAll(sends, msgs)
    ensures HostRing.ABORT !in Joined(sends)
    decreases |sends|
  {
    hide Unpacked, Codes;
    if sends != [] {
      assert Encodes(sends[0], msgs[0]);
      NeverAborts(sends[1..], msgs[1..]);
    }
  }

  /**
   The same through the ring between the terminal's threads, in any interleaving: when the words
   decoded have all found room and the display has caught up, exactly the intended characters
   are shown, if and only if no message holds a semicolon.
   */
  lemma EndToEndThroughRing(s: Station, margin: int, pieces: seq<seq<byte>>,
                            sends: seq<seq<int>>, msgs: seq<seq<char7>>,
                            ring: HostRing.State, acts: seq<HostRing.Action>, t: HostRing.State)
    requires EncodesAll(sends, msgs)
    requires Joined(pieces) == NiuFraming.Stream(Joined(sends))
    requires HostRing.Initial(ring) && HostRing.Leads(ring, acts, t)
    requires HostRing.Received(acts) == NiuFraming.Session([], pieces)
    requires |t.stored| == |HostRing.Received(acts)| && t.producer.Idle? && t.consumer.Looking? && t.taken == |t.stored|
    ensures forall i | 0 <= i < |t.delivered| :: t.delivered[i] < |t.stored|
    ensures Shown(s, margin, Unpacked(HostRing.Delivered(t))) == Intended(s, Joined(msgs))
            <==> SEMICOLON !in Joined(msgs)
  {
    hide HostRing.Leads, Shown, Unpacked, Intended, Encodes;
    AllSendable(sends, msgs);
    assert [] + Joined(pieces) == Joined(pieces);
    NiuFraming.AnySegmentation([], pieces, Joined(sends));
    NeverAborts(sends, msgs);
    HostRing.DeliversReceived(ring, acts, t);
    EndToEnd(s, margin, pieces, sends, msgs);
  }

  lemma StepsAddUp(a: int, d: int, e: int)
    ensures ((a + d) % 512 + e) % 512 == (a + (d + e)) % 512
  {
  }

  lemma SameSteps(s: Station, t: Station)
    requires t == s.Onward(s.Along())
    ensures t.Along() == s.Along()
  {
  }

  /** What the characters are: the n-th is its letter, from character memory 1 if it is a capital and 0 if it
      is not; other printing characters are themselves, from memory 0. */
  lemma IntendedCharacter(s: Station, msg: seq<char7>, n: nat)
    requires n < |msg|
    ensures var g := Intended(s, msg)[n];
            && 0 <= g.code < 64 && g.charset == (if 65 <= msg[n] <= 90 then 1 else 0)
            && CdcToAscii(g.code) as int == Printed(msg[n])
  {
    IntendedPlace(s, msg, n);
    TablesInvert(ToLower(msg[n]));
    hide AsciiToCdc, CdcToAscii;
  }

  /** Where the characters are: the n-th is n steps along the line. */
  lemma {:induction false} IntendedPlace(s: Station, msg: seq<char7>, n: nat)
    requires n < |msg|
    ensures Intended(s, msg)[n].code == CodeOf(msg[n])
    ensures Intended(s, msg)[n].charset == if IsUpper(msg[n]) then 1 else 0
    ensures var g := Intended(s, msg)[n];
            if s.vertical then g.x == s.x && (n > 0 ==> g.y == (s.y + n * s.Along()) % 512)
            else g.y == s.y && (n > 0 ==> g.x == (s.x + n * s.Along()) % 512)
    decreases n
  {
    hide CodeOf, Station.Along;
    if n > 0 {
      var t := s.Onward(s.Along());
      SameSteps(s, t);
      IntendedPlace(t, msg[1..], n - 1);
      assert Intended(s, msg)[n] == Intended(t, msg[1..])[n - 1];
      var d := s.Along();
      assert n * d == (n - 1) * d + d;
      if n > 1 {
        StepsAddUp(if s.vertical then s.y else s.x, d, (n - 1) * d);
      }
    }
  }
}
