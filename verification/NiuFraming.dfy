/**
 The NIU's three-byte frames: the sender's encoding and the terminal's self-synchronising
 decoder, which reads a byte at a time from a network buffer that may run dry.
 */
module NiuFraming {
  import opened HostCodes
  import opened Sequences

  /** Bit tests on a byte or on -1, which has every bit set. */
  function TopTwo(x: int): int { x % 256 / 64 }

  predicate HighBit(x: int) { TopTwo(x) >= 2 }

  /** The three bytes of a word. */
  function Frame(w: int): (f: seq<byte>)
    ensures |f| == 3
  {
    [w / 4096 % 256, w / 64 % 64 + 128, w % 64 + 192]
  }

  function Stream(ws: seq<int>): (r: seq<byte>)
    ensures |r| == 3 * |ws|
  {
    if ws == [] then [] else Frame(ws[0]) + Stream(ws[1..])
  }

  function Join(i: int, j: int, k: int): (w: int)
    ensures i >= 0 ==> w >= 0
  {
    i * 4096 + j % 64 * 64 + k % 64
  }

  /** What the decoder has of the frame it is reading. */
  datatype Progress = Start | GotI(i: byte) | GotJ(i: byte, j: byte)

  /** The word found, or NODATA; the bytes left; and whether the buffer ran dry inside a frame. */
  datatype Scanned = Scanned(word: int, rest: seq<byte>, dry: bool)

  /** One word from a buffer: bytes that do not fit are skipped, a first byte always starts afresh. */
  function Scan(p: Progress, data: seq<byte>): (r: Scanned)
    ensures |r.rest| <= |data|
    ensures r.word == NODATA || r.word >= 0
    ensures r.word != NODATA && p.Start? ==> |r.rest| < |data|
    ensures r.word == NODATA ==> |r.rest| < 3
    decreases |data|
  {
    match p
    case Start =>
      if |data| < 3 then Scanned(NODATA, data, false)
      else if HighBit(data[0]) then Scan(Start, data[1..])
      else Scan(GotI(data[0]), data[1..])
    case GotI(i) =>
      if data == [] then Scanned(NODATA, [], true)
      else if TopTwo(data[0]) == 2 then Scan(GotJ(i, data[0]), data[1..])
      else if HighBit(data[0]) then Scan(Start, data[1..])
      else Scan(GotI(data[0]), data[1..])
    case GotJ(i, j) =>
      if data == [] then Scanned(Join(i, j, -1), [], true)
      else if TopTwo(data[0]) == 3 then Scanned(Join(i, j, data[0]), data[1..], false)
      else if HighBit(data[0]) then Scan(Start, data[1..])
      else Scan(GotI(data[0]), data[1..])
  }

  datatype Decoded = Decoded(words: seq<int>, rest: seq<byte>, dry: bool)

  /** Words until there are no more. */
  function Decode(data: seq<byte>): (r: Decoded)
    ensures |r.rest| < 3
    decreases |data|
  {
    var s := Scan(Start, data);
    if s.word == NODATA then Decoded([], s.rest, s.dry)
    else
      var d := Decode(s.rest);
      Decoded([s.word] + d.words, d.rest, s.dry || d.dry)
  }

  lemma EverySet()
    ensures TopTwo(-1) == 3
  {
  }

  predicate Agree(a: Scanned, b: Scanned) {
    a.word == b.word && a.rest == b.rest
  }

  /** The network buffer. */
  class NetFet {
    var data: seq<byte>
    var connected: bool

    method DtReado() returns (b: int)
      modifies this`data
      ensures old(data) == [] ==> b == -1 && data == []
      ensures old(data) != [] ==> b == old(data)[0] && data == old(data)[1..]
    {
      if data == [] {
        return -1;
      }
      b := data[0];
      data := data[1..];
    }

    method AssembleNiuWord() returns (word: int)
      modifies this`data
      ensures var s := Scan(Start, old(data));
              data == s.rest && word == if s.word == NODATA && !connected then DISCONNECT else s.word
    {
      hide TopTwo, Join;
      while true
        invariant Agree(Scan(Start, data), Scan(Start, old(data)))
        decreases |data|
      {
        if |data| < 3 {
          if connected {
            return NODATA;
          }
          return DISCONNECT;
        }
        var i := DtReado();
        if HighBit(i) {
          continue;
        }
        ghost var before := |data|;
        while true
          invariant 0 <= i < 256 && |data| <= before
          invariant Agree(Scan(GotI(i), data), Scan(Start, old(data)))
          decreases |data|
        {
          EverySet();
          ghost var atJ := data;
          var j := DtReado();
          if TopTwo(j) != 2 {
            if !HighBit(j) {
              i := j;
              continue;
            }
            break;
          }
          assert Scan(GotI(i), atJ) == Scan(GotJ(i, j), data);
          var k := DtReado();
          if TopTwo(k) != 3 {
            if !HighBit(k) {
              i := k;
              continue;
            }
            break;
          }
          return Join(i, j, k);
        }
      }
    }
  }

  predicate Sendable(ws: seq<int>) {
    forall i | 0 <= i < |ws| :: 0 <= ws[i] < 0x8_0000
  }

  lemma FieldOf(t: int, x: int)
    requires 0 <= t < 4 && 0 <= x < 64
    ensures TopTwo(64 * t + x) == t && (64 * t + x) % 64 == x
  {
  }

  lemma SplitsIn(w: int)
    requires 0 <= w < 0x8_0000
    ensures w / 4096 % 256 == w / 4096 < 128
    ensures w == w / 4096 * 4096 + w / 64 % 64 * 64 + w % 64
  {
    assert w / 4096 == w / 64 / 64;
  }

  lemma PlainByte(x: int)
    requires 0 <= x < 128
    ensures !HighBit(x)
  {
  }

  lemma FrameFields(w: int)
    requires 0 <= w < 0x8_0000
    ensures var f := Frame(w);
            WellFormed(f) && Join(f[0], f[1], f[2]) == w
  {
    SplitsIn(w);
    FieldOf(2, w / 64 % 64);
    FieldOf(3, w % 64);
    PlainByte(w / 4096);
    hide TopTwo, HighBit;
  }

  /** A frame is one byte of each kind. */
  predicate WellFormed(f: seq<byte>) {
    |f| == 3 && !HighBit(f[0]) && TopTwo(f[1]) == 2 && TopTwo(f[2]) == 3
  }

  /** The layout of a frame: seven bits, then two times six bits below a mark of two. */
  lemma FrameLayout(top: nat, middle: nat, low: nat)
    requires top < 128 && middle < 64 && low < 64
    ensures Frame(top * 4096 + middle * 64 + low) == [top, 0x80 + middle, 0xc0 + low]
  {
  }

  lemma ReadsTail(f: seq<byte>, more: seq<byte>)
    requires WellFormed(f)
    ensures Scan(GotJ(f[0], f[1]), f[2..] + more) == Scanned(Join(f[0], f[1], f[2]), more, false)
  {
    hide TopTwo, Join;
    assert (f[2..] + more)[1..] == more;
  }

  lemma ReadsFrame(p: Progress, f: seq<byte>, more: seq<byte>)
    requires WellFormed(f)
    ensures Scan(p, f + more) == Scanned(Join(f[0], f[1], f[2]), more, false)
  {
    hide TopTwo, Join;
    ReadsTail(f, more);
    assert (f + more)[1..] == f[1..] + more;
    assert (f[1..] + more)[1..] == f[2..] + more;
    assert Scan(GotI(f[0]), f[1..] + more) == Scan(GotJ(f[0], f[1]), f[2..] + more);
    assert Scan(p, f + more) == Scan(GotI(f[0]), f[1..] + more);
  }

  /** From wherever garbage left the decoder, a whole frame is read as the word it encodes. */
  lemma AnyStateSyncs(p: Progress, w: int, more: seq<byte>)
    requires 0 <= w < 0x8_0000
    ensures Scan(p, Frame(w) + more) == Scanned(w, more, false)
  {
    FrameFields(w);
    ReadsFrame(p, Frame(w), more);
  }

  lemma ScanWord(p: Progress, data: seq<byte>)
    requires p.GotJ? && data != [] && TopTwo(data[0]) == 3
    ensures Scan(p, data) == Scanned(Join(p.i, p.j, data[0]), data[1..], false) && Join(p.i, p.j, data[0]) >= 0
  {
  }

  /** Where a byte that completes no word leaves the decoder. */
  function After(p: Progress, b: byte): Progress {
    if p.GotI? && TopTwo(b) == 2 then GotJ(p.i, b) else if HighBit(b) then Start else GotI(b)
  }

  lemma ScanStep(p: Progress, data: seq<byte>)
    requires data != [] && (p.Start? ==> |data| >= 3) && (p.GotJ? ==> TopTwo(data[0]) != 3)
    ensures Scan(p, data) == Scan(After(p, data[0]), data[1..])
  {
    hide TopTwo, Join;
  }

  /** How many bytes a word still needs. */
  function Missing(p: Progress): nat {
    match p
    case Start => 3
    case GotI(_) => 2
    case GotJ(_, _) => 1
  }

  /** Garbage before a frame: a word made of n bytes of garbage, or with n = 0 the frame. */
  lemma {:induction false} ThroughGarbage(p: Progress, garbage: seq<byte>, w: int, more: seq<byte>) returns (n: nat)
    requires 0 <= w < 0x8_0000
    ensures n == 0 ==> Scan(p, garbage + (Frame(w) + more)) == Scanned(w, more, false)
    ensures n > 0 ==>
              && Missing(p) <= n <= |garbage|
              && var s := Scan(p, garbage + (Frame(w) + more));
                 s.word != NODATA && !s.dry && s.rest == garbage[n..] + (Frame(w) + more)
    decreases |garbage|
  {
    hide Frame, TopTwo, Join;
    var frames := Frame(w) + more;
    var data := garbage + frames;
    if garbage == [] {
      assert data == frames;
      AnyStateSyncs(p, w, more);
      n := 0;
    } else {
      var b := garbage[0];
      assert data[1..] == garbage[1..] + frames;
      if p.GotJ? && TopTwo(b) == 3 {
        ScanWord(p, data);
        n := 1;
      } else {
        var q := After(p, b);
        ScanStep(p, data);
        hide Scan, After;
        n := ThroughGarbage(q, garbage[1..], w, more);
        n := if n == 0 then 0 else n + 1;
      }
    }
  }

  /**
   Self-synchronisation: garbage followed by the frames of any list of words decodes to
   some words, none of which took fewer than three bytes of garbage, and then exactly that list.
   */
  lemma {:induction false} Synchronises(garbage: seq<byte>, ws: seq<int>) returns (junk: seq<int>)
    requires Sendable(ws) && ws != []
    ensures Decode(garbage + Stream(ws)) == Decoded(junk + ws, [], false)
    ensures 3 * |junk| <= |garbage|
    decreases |garbage| + |ws|
  {
    hide Frame, Scan;
    var data := garbage + Stream(ws);
    var frames := Stream(ws[1..]);
    var n := ThroughGarbage(Start, garbage, ws[0], frames);
    assert ws == [ws[0]] + ws[1..];
    if n > 0 {
      junk := Synchronises(garbage[n..], ws);
      junk := [Scan(Start, data).word] + junk;
      assert junk + ws == [junk[0]] + (junk[1..] + ws);
    } else {
      junk := [];
      DecodesExactly(ws[1..]);
      assert [ws[0]] + ws[1..] == ws;
    }
  }

  /** With no garbage the words come back exactly. */
  lemma {:induction false} DecodesExactly(ws: seq<int>)
    requires Sendable(ws)
    ensures Decode(Stream(ws)) == Decoded(ws, [], false)
  {
    hide Frame;
    if ws != [] {
      AnyStateSyncs(Start, ws[0], Stream(ws[1..]));
      DecodesExactly(ws[1..]);
    }
  }

  lemma DecodeFrame(w: int, more: seq<byte>)
    requires 0 <= w < 0x8_0000
    ensures var d := Decode(more);
            Decode(Frame(w) + more) == Decoded([w] + d.words, d.rest, d.dry)
  {
    hide Frame, Scan;
    AnyStateSyncs(Start, w, more);
  }

  lemma SliceOfConcat<T>(a: seq<T>, b: seq<T>, i: nat, n: nat)
    requires |a| <= i <= n <= |a| + |b|
    ensures (a + b)[i..n] == b[i - |a|..n - |a|]
  {
  }

  lemma PrefixOfConcat<T>(a: seq<T>, b: seq<T>, n: nat)
    requires |a| <= n <= |a| + |b|
    ensures (a + b)[..n] == a + b[..n - |a|]
  {
  }

  lemma StreamCut(ws: seq<int>, i: nat, n: nat)
    requires ws != [] && 3 <= i <= n <= 3 * |ws|
    ensures Stream(ws)[..n] == Frame(ws[0]) + Stream(ws[1..])[..n - 3]
    ensures Stream(ws)[i..n] == Stream(ws[1..])[i - 3..n - 3]
  {
    hide Frame;
    SliceOfConcat(Frame(ws[0]), Stream(ws[1..]), i, n);
    PrefixOfConcat(Frame(ws[0]), Stream(ws[1..]), n);
  }

  /** Frames cut off anywhere decode to the complete ones, leaving the bytes of the last. */
  lemma {:induction false} CutOffAnywhere(ws: seq<int>, m: nat, n: nat)
    requires Sendable(ws) && 3 * m <= n <= 3 * |ws| && n < 3 * m + 3
    ensures Decode(Stream(ws)[..n]) == Decoded(ws[..m], Stream(ws)[3 * m..n], false)
    decreases m
  {
    if m == 0 {
      assert Stream(ws)[..n] == Stream(ws)[0..n];
    } else {
      hide Frame, Stream, Decode;
      StreamCut(ws, 3 * m, n);
      DecodeFrame(ws[0], Stream(ws[1..])[..n - 3]);
      CutOffAnywhere(ws[1..], m - 1, n - 3);
      FirstOf(ws, m);
    }
  }

  lemma FirstOf<T>(s: seq<T>, m: nat)
    requires 0 < m <= |s|
    ensures s[..m] == [s[0]] + s[1..][..m - 1]
  {
  }

  /** The words obtained when the decoder takes what it can each time a piece arrives. */
  function Session(buffered: seq<byte>, pieces: seq<seq<byte>>): seq<int>
    decreases |pieces|
  {
    if pieces == [] then []
    else
      var d := Decode(buffered + pieces[0]);
      d.words + Session(d.rest, pieces[1..])
  }

  lemma {:induction false} StreamFrom(ws: seq<int>, m: nat)
    requires m <= |ws|
    ensures Stream(ws)[3 * m..] == Stream(ws[m..])
  {
    hide Frame;
    if m > 0 {
      assert Stream(ws)[3 * m..] == Stream(ws[1..])[3 * (m - 1)..];
      StreamFrom(ws[1..], m - 1);
      assert ws[1..][m - 1..] == ws[m..];
    } else {
      assert ws[0..] == ws;
    }
  }

  /** In step, it makes no difference how the stream is cut into pieces. */
  lemma {:induction false} AnySegmentation(buffered: seq<byte>, pieces: seq<seq<byte>>, ws: seq<int>)
    requires Sendable(ws) && |buffered| < 3 && buffered + Joined(pieces) == Stream(ws)
    ensures Session(buffered, pieces) == ws
    decreases |pieces|
  {
    hide Frame, Decode;
    if pieces != [] {
      var data := buffered + pieces[0];
      var n := |data|;
      assert Stream(ws) == data + Joined(pieces[1..]);
      assert data == Stream(ws)[..n];
      var m := n / 3;
      CutOffAnywhere(ws, m, n);
      StreamFrom(ws, m);
      assert Stream(ws)[3 * m..n] + Joined(pieces[1..]) == Stream(ws)[3 * m..];
      AnySegmentation(Stream(ws)[3 * m..n], pieces[1..], ws[m..]);
      assert ws[..m] + ws[m..] == ws;
    }
  }

  /** A scan that did not run dry does not depend on what comes later. */
  lemma {:induction false} ScanExtends(p: Progress, data: seq<byte>, more: seq<byte>)
    requires !Scan(p, data).dry
    ensures var s := Scan(p, data);
            Scan(p, data + more) ==
              if s.word == NODATA then Scan(Start, s.rest + more) else Scanned(s.word, s.rest + more, false)
    decreases |data|
  {
    hide Join, TopTwo;
    if !(p.Start? && |data| < 3) {
      assert (data + more)[1..] == data[1..] + more;
      var b := data[0];
      if p.GotJ? && TopTwo(b) == 3 {
        ScanWord(p, data);
        ScanWord(p, data + more);
      } else {
        var q := After(p, b);
        ScanExtends(q, data[1..], more);
        ScanStep(p, data + more);
      }
    }
  }

  /** Taking what there is, and the rest when more has come, is the same as waiting for it all. */
  predicate SameEitherWay(data: seq<byte>, more: seq<byte>) {
    Decode(data + more).words == Decode(data).words + Decode(Decode(data).rest + more).words
  }

  lemma {:induction false} DecodeExtends(data: seq<byte>, more: seq<byte>)
    requires !Decode(data).dry
    ensures SameEitherWay(data, more)
    decreases |data|
  {
    hide Scan;
    ScanExtends(Start, data, more);
    var s := Scan(Start, data);
    if s.word != NODATA {
      DecodeExtends(s.rest, more);
    }
  }

  lemma DryEnd(p: Progress) returns (more: seq<byte>)
    requires !p.Start?
    ensures |more| < 3
    ensures Scan(p, more).word != Scan(p, []).word && Scan(p, more).word != NODATA && Scan(p, more).rest == []
  {
    if p.GotI? {
      more := [128, 192];
      assert Scan(p, more) == Scan(GotJ(p.i, 128), [192]);
    } else {
      more := [192];
    }
  }

  /** Where a scan ran dry, bytes still to come would have completed a different word. */
  lemma {:induction false} DryScan(p: Progress, data: seq<byte>) returns (more: seq<byte>)
    requires Scan(p, data).dry
    ensures var s := Scan(p, data);
            var t := Scan(p, data + more);
            && s.rest == [] && t.rest == [] && |more| < 3
            && t.word != NODATA && s.word != t.word
    decreases |data|
  {
    hide Join, TopTwo;
    if data == [] {
      more := DryEnd(p);
      assert data + more == more;
    } else {
      var b := data[0];
      var q := After(p, b);
      more := DryScan(q, data[1..]);
      assert (data + more)[1..] == data[1..] + more;
      ScanStep(p, data + more);
    }
  }

  lemma {:induction false} DecodeDry(data: seq<byte>) returns (more: seq<byte>)
    requires Decode(data).dry
    ensures !SameEitherWay(data, more)
    decreases |data|
  {
    hide Join;
    var s := Scan(Start, data);
    if s.dry {
      more := DryScan(Start, data);
      assert Decode(data).words == if s.word == NODATA then [] else [s.word];
      assert Decode(data).rest + more == more;
      assert Decode(more).words == [];
      assert Decode(data + more).words == [Scan(Start, data + more).word];
    } else {
      more := DecodeDry(s.rest);
      ScanExtends(Start, data, more);
      var d := Decode(s.rest);
      var e := Decode(s.rest + more);
      assert Decode(data + more).words[1..] == e.words;
      assert (Decode(data).words + Decode(d.rest + more).words)[1..] == d.words + Decode(d.rest + more).words;
    }
  }

  /** The bytes end in a first byte of a frame, or in a first and a second one. */
  predicate InsideFrame(data: seq<byte>) {
    var n := |data|;
    || (n > 0 && !HighBit(data[n - 1]))
    || (n > 1 && !HighBit(data[n - 2]) && TopTwo(data[n - 1]) == 2)
  }

  /** At none of its last three byte boundaries is the buffer between frames: where the decoder
      is then, it reads on past the end. */
  predicate CutInsideFrame(data: seq<byte>) {
    var n := |data|;
    n >= 3 && InsideFrame(data) && InsideFrame(data[..n - 1]) && InsideFrame(data[..n - 2])
  }

  /** What each byte makes of the decoder's progress, words completed or not. */
  function Advance(p: Progress, b: byte): Progress {
    if p.GotJ? && TopTwo(b) == 3 then Start else After(p, b)
  }

  function Final(p: Progress, data: seq<byte>): Progress
    decreases |data|
  {
    if data == [] then p else Final(Advance(p, data[0]), data[1..])
  }

  lemma {:induction false} FinalAppend(p: Progress, data: seq<byte>, b: byte)
    ensures Final(p, data + [b]) == Advance(Final(p, data), b)
    decreases |data|
  {
    hide Advance;
    if data == [] {
      assert [b][1..] == [] && data + [b] == [b];
      assert Final(p, [b]) == Final(Advance(p, b), []);
    } else {
      assert (data + [b])[1..] == data[1..] + [b];
      FinalAppend(Advance(p, data[0]), data[1..], b);
    }
  }

  /** The last two bytes tell how far the decoder is in a frame. */
  lemma {:induction false} FinalMeans(data: seq<byte>)
    ensures Final(Start, data).GotI? <==> data != [] && !HighBit(data[|data| - 1])
    ensures Final(Start, data).Start? <==> !InsideFrame(data)
    decreases |data|
  {
    hide TopTwo;
    if data != [] {
      var init, b := data[..|data| - 1], data[|data| - 1];
      assert data == init + [b];
      FinalAppend(Start, init, b);
      FinalMeans(init);
    }
  }

  /** Decoding from p uses up the buffer inside a frame. */
  predicate DryFrom(p: Progress, data: seq<byte>) {
    var s := Scan(p, data);
    s.dry || (s.word != NODATA && Decode(s.rest).dry)
  }

  /** The decoder is between frames when fewer than three bytes are left. */
  ghost predicate Rests(p: Progress, data: seq<byte>) {
    exists k | |data| - 2 <= k <= |data| && k >= 0 :: Final(p, data[..k]).Start?
  }

  lemma RestsStep(p: Progress, data: seq<byte>)
    requires data != [] && (p.Start? ==> |data| >= 3)
    ensures Rests(p, data) <==> Rests(Advance(p, data[0]), data[1..])
  {
    hide Advance;
    var q := Advance(p, data[0]);
    forall k | 1 <= k <= |data|
      ensures Final(p, data[..k]) == Final(q, data[1..][..k - 1])
    {
      assert data[..k][1..] == data[1..][..k - 1];
    }
    if Rests(p, data) {
      var k :| |data| - 2 <= k <= |data| && k >= 0 && Final(p, data[..k]).Start?;
      assert k > 0;
      assert Final(q, data[1..][..k - 1]).Start?;
    }
    if Rests(q, data[1..]) {
      var j :| |data| - 3 <= j <= |data| - 1 && j >= 0 && Final(q, data[1..][..j]).Start?;
      assert Final(p, data[..j + 1]).Start?;
    }
  }

  lemma {:induction false} DryUnlessResting(p: Progress, data: seq<byte>)
    ensures DryFrom(p, data) <==> !Rests(p, data)
    decreases |data|
  {
    hide TopTwo, Join, After;
    if data == [] || (p.Start? && |data| < 3) {
      assert Final(p, data[..0]) == p;
      if data == [] {
        assert forall k | 0 <= k <= 0 :: data[..k] == [];
      }
    } else {
      var q := Advance(p, data[0]);
      RestsStep(p, data);
      hide Rests;
      DryUnlessResting(q, data[1..]);
      if p.GotJ? && TopTwo(data[0]) == 3 {
        ScanWord(p, data);
      } else {
        ScanStep(p, data);
      }
    }
  }

  /** The decoder uses up the buffer inside a frame if and only if the last four bytes say so. */
  lemma DryIff(data: seq<byte>)
    ensures Decode(data).dry <==> CutInsideFrame(data)
  {
    hide InsideFrame, Scan, Final;
    DryUnlessResting(Start, data);
    assert Decode(data).dry == DryFrom(Start, data);
    hide Decode;
    var n := |data|;
    if n < 3 {
      FinalOfNothing(data);
    } else {
      FinalMeans(data);
      FinalMeans(data[..n - 1]);
      FinalMeans(data[..n - 2]);
      assert data[..n] == data;
      if Rests(Start, data) {
        var k :| n - 2 <= k <= n && Final(Start, data[..k]).Start?;
        assert k == n || k == n - 1 || k == n - 2;
      }
    }
  }

  lemma FinalOfNothing(data: seq<byte>)
    requires |data| < 3
    ensures Rests(Start, data)
  {
    assert Final(Start, data[..0]) == Start;
  }

  /**
   Taking what has arrived and the rest when it comes is the same as waiting for it all, whatever
   comes, if and only if the buffer is not cut inside a frame at each of its last three byte
   boundaries.
   */
  lemma SameEitherWayIff(data: seq<byte>)
    ensures (forall more: seq<byte> :: SameEitherWay(data, more)) <==> !CutInsideFrame(data)
  {
    hide CutInsideFrame, SameEitherWay, Decode;
    DryIff(data);
    if Decode(data).dry {
      var more := DecodeDry(data);
    } else {
      forall more: seq<byte>
        ensures SameEitherWay(data, more)
      {
        DecodeExtends(data, more);
      }
    }
  }

  lemma FrameCutShort(w: int)
    requires 0 <= w < 0x8_0000
    ensures Join(Frame(w)[0], Frame(w)[1], -1) == w / 64 * 64 + 63
  {
  }

  lemma StrayScan(stray: byte, f: seq<byte>)
    requires !HighBit(stray) && |f| == 3 && !HighBit(f[0]) && TopTwo(f[1]) == 2
    ensures Scan(Start, [stray] + f[..2]) == Scanned(Join(f[0], f[1], -1), [], true)
  {
    hide Join, TopTwo;
    var first := [stray] + f[..2];
    assert first[1..] == f[..2] && first[1..][1..] == [f[1]] && first[1..][1..][1..] == [];
    assert Scan(Start, first) == Scan(GotI(stray), first[1..]);
    assert Scan(GotI(stray), f[..2]) == Scan(GotI(f[0]), [f[1]]);
    assert Scan(GotI(f[0]), [f[1]]) == Scan(GotJ(f[0], f[1]), []);
  }

  lemma StrayIsCut(stray: byte, f: seq<byte>)
    requires !HighBit(stray) && WellFormed(f)
    ensures CutInsideFrame([stray] + f[..2])
  {
    hide TopTwo;
  }

  /** One stray byte before a frame of which two bytes have arrived: the word is lost and another
      one, with its last six bits set, is received instead. */
  lemma StrayByteLosesWord(stray: byte, w: int)
    requires 0 <= w < 0x8_0000 && !HighBit(stray)
    ensures Session([], [[stray] + Frame(w)[..2], Frame(w)[2..]]) == [w / 64 * 64 + 63]
    ensures CutInsideFrame([stray] + Frame(w)[..2])
  {
    FrameFields(w);
    assert WellFormed(Frame(w));
    StrayIsCut(stray, Frame(w));
    FrameCutShort(w);
    hide Frame, HighBit, TopTwo;
    var f := Frame(w);
    StrayScan(stray, f);
    hide Join, TopTwo;
    var first := [stray] + f[..2];
    assert Decode(first).words == [w / 64 * 64 + 63] && Decode(first).rest == [];
    assert Decode(f[2..]).words == [];
    var pieces := [first, f[2..]];
    assert pieces[1..] == [f[2..]];
    assert [] + first == first && [] + f[2..] == f[2..];
    assert Session([], pieces[1..]) == [];
  }
}
