/**
 File transfer: 60-bit words packed into seven and a half bytes each, read back from a stream
 that arrives in any pieces, and files sent as chunks of words behind headers.
 */
module Cftp {
  import opened Nibbles
  import opened Sequences
  import opened Words

  const TWO56 := 0x100_0000_0000_0000

  /** The bytes of a list of words: its digits, and one more to fill the last byte. */
  function ToBytes(wl: seq<nat>): (r: seq<byte>)
    ensures |r| == (15 * |wl| + 1) / 2
  {
    BytesOf(NibblesOfWords(wl) + Filler(|wl|))
  }

  /** The digit that fills the last byte of an odd number of words. */
  function Filler(n: nat): seq<nibble> {
    if n % 2 == 1 then [0] else []
  }

  /** The words that bytes hold. */
  function FromBytes(bl: seq<byte>): (r: seq<nat>)
    ensures |r| == 2 * |bl| / 15
  {
    WordsOf(NibblesOf(bl))
  }

  /** Unpacking undoes packing, for odd numbers of words too. */
  lemma RoundTrip(wl: seq<nat>)
    requires AllWords(wl)
    ensures FromBytes(ToBytes(wl)) == wl
  {
    var more: seq<nibble> := if |wl| % 2 == 1 then [0] else [];
    NibblesOfBytesOf(NibblesOfWords(wl) + more);
    WordsOfNibbles(wl, more);
  }

  /** Words as one number, the first one highest. */
  function Number(wl: seq<nat>): nat {
    if wl == [] then 0 else TWO60 * Number(wl[..|wl| - 1]) + wl[|wl| - 1]
  }

  /** The bytes, taken as one number with the first byte highest, are the words as one number, with four bits
      more if their number is odd. */
  lemma BytesAreNumber(wl: seq<nat>)
    requires AllWords(wl)
    ensures Unpack(ToBytes(wl)) == if |wl| % 2 == 1 then 16 * Number(wl) else Number(wl)
  {
    UnpackIsValue(ToBytes(wl));
    DigitsOfBytes(wl);
    hide ToBytes, Unpack, NibblesOf, NibblesOfWords, Number, Value;
    NibblesAreNumber(wl);
  }

  lemma DigitsOfBytes(wl: seq<nat>)
    ensures Value(NibblesOf(ToBytes(wl)))
            == if |wl| % 2 == 1 then 16 * Value(NibblesOfWords(wl)) else Value(NibblesOfWords(wl))
  {
    hide NibblesOfWords, NibblesOf, BytesOf, Value;
    var more := Filler(|wl|);
    EvenDigits(wl, more);
    assert ToBytes(wl) == BytesOf(NibblesOfWords(wl) + more);
    NibblesOfBytesOf(NibblesOfWords(wl) + more);
    FilledValue(NibblesOfWords(wl), more);
  }

  lemma EvenDigits(wl: seq<nat>, more: seq<nibble>)
    requires more == Filler(|wl|)
    ensures |NibblesOfWords(wl) + more| % 2 == 0
  {
    hide NibblesOfWords;
    assert 15 * |wl| == 2 * (7 * |wl|) + |wl|;
  }

  lemma FilledValue(ns: seq<nibble>, more: seq<nibble>)
    requires more == [] || more == [0]
    ensures Value(ns + more) == if more == [] then Value(ns) else 16 * Value(ns)
  {
    if more == [] {
      assert ns + more == ns;
    } else {
      assert (ns + more)[..|ns|] == ns;
    }
  }

  lemma {:induction false} NibblesAreNumber(wl: seq<nat>)
    requires AllWords(wl)
    ensures Value(NibblesOfWords(wl)) == Number(wl)
  {
    if wl != [] {
      var n := |wl| - 1;
      NibblesAreNumber(wl[..n]);
      assert wl == wl[..n] + [wl[n]];
      NibblesOfOneMore(wl[..n], wl[n]);
      FifteenDigits();
      ValueOfDigits(wl[n], 15);
      hide Value, NibblesOfWords, Digits, Pow16;
      ValueOfBoth(NibblesOfWords(wl[..n]), Digits(wl[n], 15));
    }
  }

  lemma {:induction false} ValueOfBoth(a: seq<nibble>, b: seq<nibble>)
    ensures Value(a + b) == Value(a) * Pow16(|b|) + Value(b)
  {
    if b == [] {
      assert a + b == a;
    } else {
      var n := |b| - 1;
      assert (a + b)[..|a + b| - 1] == a + b[..n];
      ValueOfBoth(a, b[..n]);
      Regroup(Value(a), Pow16(n));
    }
  }

  lemma FirstHalf(w: nat)
    requires w < TWO60
    ensures NibblesOf(Pack(16 * w, 8)[..7]) + [w % 16] == Digits(w, 15)
  {
    hide Pack, Digits, NibblesOf;
    var bytes := Pack(16 * w, 8);
    PackIsDigits(16 * w, 8);
    LowDigits(w, 15);
    assert bytes == bytes[..7] + [bytes[7]];
    NibblesOfBoth(bytes[..7], [bytes[7]]);
    assert NibblesOf(bytes)[..14] == NibblesOf(bytes[..7]);
  }

  lemma SecondHalf(c: nibble, w: nat)
    requires w < TWO60
    ensures NibblesOf(Pack(c * TWO60 + w, 8)) == [c] + Digits(w, 15)
  {
    hide Pack, Digits, NibblesOf, Pow16;
    PackIsDigits(c * TWO60 + w, 8);
    FifteenDigits();
    TopDigit(c, w, 15);
  }

  method Words2bytes(wl: seq<nat>) returns (bl: seq<byte>)
    requires AllWords(wl)
    ensures bl == ToBytes(wl)
  {
    hide Pack, Digits, NibblesOf, NibblesOfWords;
    bl := [];
    var odd := false;
    var carry: nat := 0;
    ghost var c: nibble := 0;
    var i := 0;
    Nothing();
    while i < |wl|
      invariant 0 <= i <= |wl| && odd == (i % 2 == 1) && carry == c * TWO60
      invariant NibblesOf(bl) + (if odd then [c] else []) == NibblesOfWords(wl[..i])
    {
      var w := wl[i];
      assert wl[..i + 1] == wl[..i] + [w];
      NibblesOfOneMore(wl[..i], w);
      ghost var before := bl;
      if odd {
        var bytes := Pack(w + carry, 8);
        SecondHalf(c, w);
        NibblesOfBoth(bl, bytes);
        bl := bl + bytes;
        odd := false;
      } else {
        var bytes := Pack(w * 16, 8);
        FirstHalf(w);
        NibblesOfBoth(bl, bytes[..7]);
        bl := bl + bytes[..7];
        carry := w % 16 * TWO60;
        c := w % 16;
        odd := true;
      }
      i := i + 1;
    }
    assert wl[..|wl|] == wl;
    if odd {
      LastDigit(c);
      NibblesOfBoth(bl, [carry / TWO56]);
      bl := bl + [carry / TWO56];
    }
    BytesOfNibblesOf(bl);
    assert NibblesOf(bl) == NibblesOfWords(wl) + if |wl| % 2 == 1 then [0] else [];
  }

  lemma LastDigit(c: nibble)
    ensures c * TWO60 / TWO56 == 16 * c < 256 && NibblesOf([16 * c]) == [c, 0]
  {
    assert NibblesOf([16 * c]) == [16 * c / 16, 16 * c % 16] + NibblesOf([]);
  }

  lemma Nothing()
    ensures NibblesOf([]) == [] && NibblesOfWords([]) == []
  {
  }

  lemma WordsStep(ns: seq<nibble>, first: seq<nibble>, rest: seq<nibble>)
    requires ns == first + rest && |first| == 15
    ensures WordsOf(ns) == [Value(first)] + WordsOf(rest)
  {
    hide Value;
    assert ns[..15] == first && ns[15..] == rest;
  }

  lemma ValueLast(ns: seq<nibble>)
    requires ns != []
    ensures Value(ns) / 16 == Value(ns[..|ns| - 1])
  {
  }

  /** Seven bytes and half of the next are a word. */
  lemma SevenAndAHalf(f: seq<byte>, b: byte, rest: seq<byte>)
    requires |f| == 7
    ensures WordsOf(NibblesOf(f + ([b] + rest))) == [Unpack(f + [b]) / 16] + WordsOf(NibblesOf([b] + rest)[1..])
  {
    NibblesOfBoth(f, [b] + rest);
    NibblesOfBoth(f, [b]);
    UnpackIsValue(f + [b]);
    var fs: seq<nibble> := NibblesOf(f);
    var after := NibblesOf([b] + rest);
    assert [b][1..] == [] && NibblesOf([b]) == [b / 16, b % 16];
    assert after[0] == b / 16;
    hide Unpack, NibblesOf, Value, WordsOf;
    ValueLast(fs + [b / 16, b % 16]);
    assert (fs + [b / 16, b % 16])[..15] == fs + [b / 16];
    assert fs + after == (fs + [b / 16]) + after[1..];
    WordsStep(fs + after, fs + [b / 16], after[1..]);
  }

  lemma SplitAt<T>(s: seq<T>, n: nat)
    requires n < |s|
    ensures s[..n + 1] == s[..n] + [s[n]] && s[n..] == [s[n]] + s[n + 1..]
  {
  }

  lemma SplitBefore<T>(s: seq<T>, n: nat)
    requires n <= |s|
    ensures s == s[..n] + s[n..]
  {
  }

  lemma EvenTake(bl: seq<byte>)
    requires |bl| >= 8
    ensures WordsOf(NibblesOf(bl)) == [Unpack(bl[..8]) / 16] + WordsOf(NibblesOf(bl[7..])[1..])
  {
    SplitAt(bl, 7);
    SplitBefore(bl, 7);
    hide Unpack, NibblesOf, WordsOf;
    SevenAndAHalf(bl[..7], bl[7], bl[8..]);
  }

  lemma LastFifteen(first: seq<nibble>)
    requires |first| == 16
    ensures Value(first) % TWO60 == Value(first[1..])
  {
    hide Value, Digits, Pow16;
    FifteenDigits();
    ValueFirst(first);
    DigitsOfValue(first[1..]);
  }

  lemma HalfAndSeven(f: seq<byte>, rest: seq<byte>)
    requires |f| == 8
    ensures WordsOf(NibblesOf(f + rest)[1..]) == [Unpack(f) % TWO60] + WordsOf(NibblesOf(rest))
  {
    hide Unpack, NibblesOf, Value, WordsOf;
    NibblesOfBoth(f, rest);
    UnpackIsValue(f);
    var fs, after := NibblesOf(f), NibblesOf(rest);
    LastFifteen(fs);
    assert (fs + after)[1..] == fs[1..] + after;
    WordsStep(fs[1..] + after, fs[1..], after);
  }

  lemma OddTake(bl: seq<byte>)
    requires |bl| >= 8
    ensures WordsOf(NibblesOf(bl)[1..]) == [Unpack(bl[..8]) % TWO60] + WordsOf(NibblesOf(bl[8..]))
  {
    hide Unpack, NibblesOf, WordsOf;
    SplitBefore(bl, 8);
    HalfAndSeven(bl[..8], bl[8..]);
  }

  method Bytes2words(bytes: seq<byte>) returns (wl: seq<nat>)
    ensures wl == FromBytes(bytes)
  {
    hide Unpack, NibblesOf, WordsOf;
    var bl := bytes;
    wl := [];
    var odd := false;
    assert NibblesOf(bl)[0..] == NibblesOf(bl);
    while bl != []
      invariant odd ==> bl != []
      invariant wl + WordsOf(NibblesOf(bl)[if odd then 1 else 0..]) == FromBytes(bytes)
      decreases |bl|
    {
      if |bl| < 8 {
        break;
      }
      var w := Unpack(bl[..8]);
      if odd {
        OddTake(bl);
        wl := wl + [w % TWO60];
        bl := bl[8..];
        odd := false;
      } else {
        EvenTake(bl);
        assert NibblesOf(bl)[0..] == NibblesOf(bl);
        wl := wl + [w / 16];
        bl := bl[7..];
        odd := true;
      }
      assert NibblesOf(bl)[0..] == NibblesOf(bl);
    }
  }

  const EOR := 1
  const EOI := 3

  /** How many bytes carry w words: an odd number is rounded up. */
  function Wc2bc(w: nat): nat { w / 2 * 15 + w % 2 * 15 }

  /** How many words are in b bytes: a last pair that is not complete is dropped. */
  function Bc2wc(b: nat): nat { b / 15 * 2 }

  /** Two words are fifteen bytes: a count of words is rounded up to whole pairs, one of bytes down. */
  lemma CountsInPairs(w: nat, b: nat)
    ensures 2 * Wc2bc(w) == 15 * (w + w % 2)
    ensures Bc2wc(b) % 2 == 0 && 15 * Bc2wc(b) <= 2 * b < 15 * (Bc2wc(b) + 2)
  {
  }

  /** What is received until an empty piece, which means the end of the stream. */
  function Arriving(pieces: seq<seq<byte>>): seq<byte> {
    if pieces == [] || pieces[0] == [] then [] else pieces[0] + Arriving(pieces[1..])
  }

  datatype Result<T> = Ok(value: T) | EofError

  /** What a receiver writes, what it leaves, and whether it saw the end of information. */
  datatype Reception = Reception(written: seq<byte>, rest: seq<byte>, ended: bool) {
    function After(before: seq<byte>): Reception {
      this.(written := before + written)
    }
  }

  /** One chunk: cut short, the end of information, or data, which may be none. */
  datatype Part = Cut | End(rest: seq<byte>) | Data(bytes: seq<byte>, rest: seq<byte>)

  function OneChunk(data: seq<byte>): (part: Part)
    ensures part.Data? ==> |part.rest| < |data|
  {
    if |data| < 15 then Cut
    else
      var header := FromBytes(data[..15]);
      if header[0] == 0 then if header[1] == EOI then End(data[15..]) else Data([], data[15..])
      else
        var n := Wc2bc(header[0]);
        if |data| < 15 + n then Cut else Data(data[15..15 + n], data[15 + n..])
  }

  function Received(data: seq<byte>): Reception
    decreases |data|
  {
    match OneChunk(data)
    case Cut => Reception([], [], false)
    case End(rest) => Reception([], rest, true)
    case Data(bytes, rest) => Received(rest).After(bytes)
  }

  /** A header, and as many bytes as make whole pairs of words. */
  function Chunk(data: seq<byte>): seq<byte> {
    ToBytes([Bc2wc(|data|), 0]) + data[..Wc2bc(Bc2wc(|data|))]
  }

  /** The chunks of a file, then the end of record and the end of information. */
  function Chunks(file: seq<byte>, bytemax: nat): seq<byte>
    decreases |file|
  {
    if file == [] || bytemax == 0 then ToBytes([0, EOR]) + ToBytes([0, EOI])
    else
      var n := if |file| < bytemax then |file| else bytemax;
      Chunk(file[..n]) + Chunks(file[n..], bytemax)
  }

  lemma AfterBoth(r: Reception, a: seq<byte>, b: seq<byte>)
    ensures r.After(b).After(a) == r.After(a + b)
    ensures r.After([]) == r
  {
    assert a + (b + r.written) == (a + b) + r.written;
  }

  lemma SliceTwice<T>(s: seq<T>, i: nat, n: nat)
    requires i + n <= |s|
    ensures s[i..][n..] == s[i + n..] && s[i..][..n] == s[i..i + n]
  {
  }

  datatype Outcome = Done | Refused(status: nat) | Broken

  class Connection {
    var pendingdata: seq<byte>
    var pieces: seq<seq<byte>>
    var sent: seq<byte>

    function Incoming(): seq<byte>
      reads this`pendingdata, this`pieces
    {
      pendingdata + Arriving(pieces)
    }

    /** Read exactly n bytes, however they arrive. */
    method Read(n: nat) returns (r: Result<seq<byte>>)
      modifies this`pendingdata, this`pieces
      ensures |old(Incoming())| >= n ==> r == Ok(old(Incoming())[..n]) && Incoming() == old(Incoming())[n..]
      ensures |old(Incoming())| < n ==> r == EofError && Incoming() == []
    {
      while |pendingdata| < n
        invariant Incoming() == old(Incoming())
        decreases |pieces|
      {
        if pieces == [] || pieces[0] == [] {
          pieces := [];
          pendingdata := [];
          return EofError;
        }
        pendingdata := pendingdata + pieces[0];
        pieces := pieces[1..];
      }
      assert pendingdata[..n] == Incoming()[..n];
      assert Incoming()[n..] == pendingdata[n..] + Arriving(pieces);
      r := Ok(pendingdata[..n]);
      pendingdata := pendingdata[n..];
    }

    method ReadWords(n: nat) returns (r: Result<seq<nat>>)
      modifies this`pendingdata, this`pieces
      ensures |old(Incoming())| >= Wc2bc(n) ==>
                r == Ok(FromBytes(old(Incoming())[..Wc2bc(n)])) && Incoming() == old(Incoming())[Wc2bc(n)..]
      ensures |old(Incoming())| < Wc2bc(n) ==> r == EofError && Incoming() == []
    {
      var data := Read(Wc2bc(n));
      if data.EofError? {
        return EofError;
      }
      var words := Bytes2words(data.value);
      return Ok(words);
    }

    method SendAll(text: seq<byte>)
      modifies this`sent
      ensures sent == old(sent) + text
    {
      sent := sent + text;
    }

    method SendWords(words: seq<nat>)
      requires AllWords(words)
      modifies this`sent
      ensures sent == old(sent) + ToBytes(words)
    {
      var bytes := Words2bytes(words);
      SendAll(bytes);
    }

    /** Read a header and what it announces. */
    method ReadChunk() returns (ghost part: Part, wc: nat, flags: nat, data: Result<seq<byte>>)
      modifies this`pendingdata, this`pieces
      ensures part == OneChunk(old(Incoming()))
      ensures data.EofError? <==> part.Cut?
      ensures part.End? <==> data.Ok? && wc == 0 && flags == EOI
      ensures Incoming() == if part.Cut? then [] else part.rest
      ensures part.Data? ==> data == Ok(part.bytes)
    {
      hide FromBytes;
      ghost var before := Incoming();
      part := OneChunk(before);
      var header := ReadWords(2);
      if header.EofError? {
        return part, 0, 0, EofError;
      }
      wc, flags := header.value[0], header.value[1];
      data := Ok([]);
      if wc != 0 {
        if |before| >= 15 + Wc2bc(wc) {
          SliceTwice(before, 15, Wc2bc(wc));
        }
        data := Read(Wc2bc(wc));
      }
    }

    /** The receiving side of a transfer. */
    method TransferIn() returns (written: seq<byte>, ended: bool)
      modifies this
      ensures Reception(written, Incoming(), ended) == Received(old(Incoming()))
      ensures sent == old(sent) + if ended then ToBytes([0, 0, 0, 0]) else []
    {
      hide OneChunk, ToBytes, Arriving;
      AfterBoth(Received(Incoming()), [], []);
      written := [];
      while true
        invariant sent == old(sent)
        invariant Received(old(Incoming())) == Received(Incoming()).After(written)
        decreases |Incoming()|
      {
        var part, wc, flags, data := ReadChunk();
        if data.EofError? {
          return written, false;
        }
        if wc == 0 && flags == EOI {
          SendWords([0, 0, 0, 0]);
          return written, true;
        }
        AfterBoth(Received(Incoming()), written, data.value);
        written := written + data.value;
      }
    }

    /** Send a chunk behind its header. */
    method SendChunk(data: seq<byte>)
      requires Bc2wc(|data|) < TWO60
      modifies this`sent
      ensures sent == old(sent) + Chunk(data)
    {
      var wc := Bc2wc(|data|);
      SendWords([wc, 0]);
      SendAll(data[..Wc2bc(wc)]);
    }

    /** The chunks of a file, behind their headers, and then the end marks. */
    method SendFile(file: seq<byte>, bytemax: nat)
      requires Bc2wc(bytemax) < TWO60
      modifies this`sent
      ensures sent == old(sent) + Chunks(file, bytemax)
    {
      hide ToBytes, Chunk;
      var left := file;
      while true
        invariant sent + Chunks(left, bytemax) == old(sent) + Chunks(file, bytemax)
        decreases |left|
        modifies this`sent
      {
        var n := if |left| < bytemax then |left| else bytemax;
        var data := left[..n];
        left := left[n..];
        if data == [] {
          break;
        }
        SendChunk(data);
      }
      SendWords([0, EOR]);
      SendWords([0, EOI]);
    }

    /** The sending side of a transfer. */
    method TransferOut(file: seq<byte>, mtu: nat) returns (outcome: Outcome)
      requires mtu < TWO60
      modifies this
      ensures sent == old(sent) + Chunks(file, mtu / 2 * 15)
      ensures outcome == if |old(Incoming())| < 30 then Broken
                         else var status := FromBytes(old(Incoming())[..30])[0];
                              if status == 0 then Done else Refused(status)
    {
      hide ToBytes, FromBytes, Chunks, Arriving;
      SendFile(file, mtu / 2 * 15);
      var status := ReadWords(4);
      if status.EofError? {
        return Broken;
      }
      if status.value[0] != 0 {
        return Refused(status.value[0]);
      }
      return Done;
    }
  }

  lemma HeaderRead(a: nat, b: nat, more: seq<byte>)
    requires a < TWO60 && b < TWO60
    ensures var data := ToBytes([a, b]) + more;
            |data| >= 15 && FromBytes(data[..15]) == [a, b] && data[15..] == more
  {
    hide ToBytes, FromBytes;
    RoundTrip([a, b]);
    var data := ToBytes([a, b]) + more;
    assert data[..15] == ToBytes([a, b]);
  }

  /** The part of a file that makes whole pairs of words. */
  function WholePairs(file: seq<byte>): seq<byte> {
    file[..|file| / 15 * 15]
  }

  lemma WholePairsOfTwo(a: seq<byte>, b: seq<byte>)
    requires |a| % 15 == 0
    ensures WholePairs(a) == a && WholePairs(a + b) == a + WholePairs(b)
  {
    assert (|a| + |b|) / 15 == |a| / 15 + |b| / 15;
  }

  lemma ChunkRead(data: seq<byte>, more: seq<byte>)
    requires Bc2wc(|data|) < TWO60
    ensures Received(Chunk(data) + more) == Received(more).After(WholePairs(data))
  {
    hide ToBytes, FromBytes;
    var wc := Bc2wc(|data|);
    var body := WholePairs(data);
    var all := Chunk(data) + more;
    assert all == ToBytes([wc, 0]) + (body + more);
    HeaderRead(wc, 0, body + more);
    SliceTwice(all, 15, |body|);
    assert (body + more)[..|body|] == body && (body + more)[|body|..] == more;
    assert OneChunk(all) == Data(body, more);
  }

  lemma TrailerRead(more: seq<byte>)
    ensures Received(ToBytes([0, EOR]) + ToBytes([0, EOI]) + more) == Reception([], more, true)
  {
    hide ToBytes, FromBytes;
    var last := ToBytes([0, EOI]) + more;
    var all := ToBytes([0, EOR]) + ToBytes([0, EOI]) + more;
    assert all == ToBytes([0, EOR]) + last;
    HeaderRead(0, EOR, last);
    assert OneChunk(all) == Data([], last);
    HeaderRead(0, EOI, more);
    assert OneChunk(last) == End(more);
  }

  lemma {:induction false} ChunksRead(file: seq<byte>, bytemax: nat, more: seq<byte>)
    requires 0 < bytemax && bytemax % 15 == 0 && Bc2wc(bytemax) < TWO60
    ensures Received(Chunks(file, bytemax) + more) == Reception(WholePairs(file), more, true)
    decreases |file|
  {
    hide ToBytes, Chunk, Received;
    if file == [] {
      TrailerRead(more);
    } else {
      var n := if |file| < bytemax then |file| else bytemax;
      var rest := Chunks(file[n..], bytemax) + more;
      assert Chunks(file, bytemax) + more == Chunk(file[..n]) + rest;
      ChunkRead(file[..n], rest);
      ChunksRead(file[n..], bytemax, more);
      assert file == file[..n] + file[n..];
      if |file| < bytemax {
        assert WholePairs(file[n..]) == [] && file[..n] == file;
      } else {
        WholePairsOfTwo(file[..n], file[n..]);
      }
    }
  }

  lemma WholeIff(file: seq<byte>)
    ensures WholePairs(file) == file <==> |file| % 15 == 0
  {
    if |file| % 15 == 0 {
      assert |file| / 15 * 15 == |file|;
    } else {
      assert |WholePairs(file)| < |file|;
    }
  }

  /** What the receiver of a file has written when the end of information comes. */
  function Delivered(file: seq<byte>, mtu: nat): seq<byte> {
    if mtu >= 2 then WholePairs(file) else []
  }

  /**
   A transfer over any file and any MTU: the receiver stops at the end of information, leaving
   whatever comes after it; it has written the file's whole pairs of words, unless the MTU is
   less than two words, when it has written nothing.
   */
  lemma TransferDelivers(file: seq<byte>, mtu: nat, more: seq<byte>)
    requires mtu < TWO60
    ensures Received(Chunks(file, mtu / 2 * 15) + more) == Reception(Delivered(file, mtu), more, true)
  {
    hide Received, ToBytes, WholePairs, Chunk;
    if mtu >= 2 {
      ChunksRead(file, mtu / 2 * 15, more);
    } else {
      TrailerRead(more);
    }
  }

  /** The file arrives whole if and only if it is empty, or the MTU is at least two words and
      the file's length is a multiple of fifteen bytes. */
  lemma ArrivesWholeIff(file: seq<byte>, mtu: nat)
    requires mtu < TWO60
    ensures Received(Chunks(file, mtu / 2 * 15)).written == file
            <==> file == [] || (mtu >= 2 && |file| % 15 == 0)
  {
    hide Received, Chunks, WholePairs;
    TransferDelivers(file, mtu, []);
    assert Chunks(file, mtu / 2 * 15) + [] == Chunks(file, mtu / 2 * 15);
    WholeIff(file);
  }
}
