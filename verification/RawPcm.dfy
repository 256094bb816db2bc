/** Headerless PCM on a byte stream: a reader that must not depend on how the
    stream or the caller's buffers are split, and the writer that inverts it. */
module RawPcm {
  import opened Wrappers
  import opened Basics

  type Byte = b: nat | b < 256

  datatype Format = S16Le | F32Le

  /** A sample: the exact value of a 16-bit one, the bit pattern of a float. */
  datatype Sample = Level(value: real) | Pattern(bits: nat)

  const RIFF: seq<Byte> := [0x52, 0x49, 0x46, 0x46]

  /** The bytes `n` samples take. */
  function Span(format: Format, n: nat): nat {
    match format
    case S16Le => 2 * n
    case F32Le => 4 * n
  }

  /** The whole samples in `n` bytes. */
  function Whole(format: Format, n: nat): nat {
    match format
    case S16Le => n / 2
    case F32Le => n / 4
  }

  /** The bytes left over from the whole samples in `n`. */
  function Leftover(format: Format, n: nat): nat {
    match format
    case S16Le => n % 2
    case F32Le => n % 4
  }

  // ------------------------------------------------------------------- codec

  /** Sign-extends a 16-bit word. */
  function Signed16(word: nat): int
    requires word < 0x1_0000
  {
    if word < 0x8000 then word else word - 0x1_0000
  }

  /** The word whose low byte is `low`. */
  function Word16(low: nat, high: nat): nat {
    low + 0x100 * high
  }

  function DecodeOne(format: Format, bytes: seq<Byte>): Sample
    requires |bytes| == Span(format, 1)
  {
    match format
    case S16Le => Level(Signed16(Word16(bytes[0], bytes[1])) as real / 32768.0)
    case F32Le => Pattern(Word16(bytes[0], bytes[1]) + 0x1_0000 * Word16(bytes[2], bytes[3]))
  }

  /** Nearest integer, halves away from zero. */
  function RoundAway(x: real): int {
    if x >= 0.0 then (x + 0.5).Floor else -(0.5 - x).Floor
  }

  function Clamp16(n: int): int {
    if n < -32768 then -32768 else if n > 32767 then 32767 else n
  }

  function Pcm16(value: real): int {
    Clamp16(RoundAway(value * 32768.0))
  }

  function LittleEndian16(n: int): seq<Byte>
    requires -32768 <= n <= 32767
  {
    var word := if n < 0 then n + 0x1_0000 else n;
    [word % 0x100, word / 0x100]
  }

  function LittleEndian32(word: nat): seq<Byte>
    requires word < 0x1_0000_0000
  {
    [word % 0x100, word / 0x100 % 0x100, word / 0x1_0000 % 0x100, word / 0x100_0000]
  }

  /** A sample of the kind `format` holds. */
  predicate Fits(format: Format, sample: Sample) {
    match format
    case S16Le => sample.Level?
    case F32Le => sample.Pattern? && sample.bits < 0x1_0000_0000
  }

  function EncodeOne(format: Format, sample: Sample): (bytes: seq<Byte>)
    requires Fits(format, sample)
    ensures |bytes| == Span(format, 1)
  {
    match format
    case S16Le => LittleEndian16(Pcm16(sample.value))
    case F32Le => LittleEndian32(sample.bits)
  }

  function Decode(format: Format, bytes: seq<Byte>): seq<Sample> {
    var width := Span(format, 1);
    if |bytes| < width then [] else [DecodeOne(format, bytes[..width])] + Decode(format, bytes[width..])
  }

  function Encode(format: Format, samples: seq<Sample>): seq<Byte>
    requires forall s :: s in samples ==> Fits(format, s)
  {
    if samples == [] then [] else EncodeOne(format, samples[0]) + Encode(format, samples[1..])
  }

  /** What the bytes stand for: a signed little-endian word over 32768, or the
      little-endian bit pattern of a float. */
  lemma DecodedValue(format: Format, bytes: seq<Byte>)
    requires |bytes| == (if format.S16Le? then 2 else 4)
    ensures format.S16Le? ==>
              var word: nat := (bytes[0] as nat) + 256 * (bytes[1] as nat);
              DecodeOne(format, bytes) == Level((if word < 32768 then word else word - 65536) as real / 32768.0)
    ensures format.F32Le? ==>
              DecodeOne(format, bytes) ==
              Pattern((bytes[0] as nat) + 256 * (bytes[1] as nat) + 65536 * (bytes[2] as nat) + 16777216 * (bytes[3] as nat))
  {
  }

  /** What is written: the value times 32768, to the nearest integer, halves away
      from zero, clamped to 16 bits. */
  lemma WrittenValue(value: real)
    ensures -32768 <= Pcm16(value) <= 32767
    ensures value * 32768.0 >= 32767.0 ==> Pcm16(value) == 32767
    ensures value * 32768.0 <= -32768.0 ==> Pcm16(value) == -32768
    ensures 0.0 <= value * 32768.0 < 32767.0 ==> Pcm16(value) as real - 0.5 <= value * 32768.0 < Pcm16(value) as real + 0.5
    ensures -32768.0 < value * 32768.0 < 0.0 ==> Pcm16(value) as real - 0.5 < value * 32768.0 <= Pcm16(value) as real + 0.5
  {
    RoundedAway(value * 32768.0);
  }

  lemma RoundedAway(x: real)
    ensures x >= 0.0 ==> RoundAway(x) as real - 0.5 <= x < RoundAway(x) as real + 0.5
    ensures x < 0.0 ==> RoundAway(x) as real - 0.5 < x <= RoundAway(x) as real + 0.5
  {
  }

  /** Sixteen-bit levels survive the float arithmetic of a write. */
  lemma LevelsSurvive(n: int)
    requires -32768 <= n <= 32767
    ensures Pcm16(n as real / 32768.0) == n
  {
    assert n as real / 32768.0 * 32768.0 == n as real;
    if n >= 0 {
      FloorIs(n as real + 0.5, n);
    } else {
      FloorIs(0.5 - n as real, -n);
    }
  }

  lemma FloorIs(x: real, n: int)
    requires n as real <= x < n as real + 1.0
    ensures x.Floor == n
  {
  }

  lemma SampleRoundTrip(format: Format, bytes: seq<Byte>)
    requires |bytes| == Span(format, 1)
    ensures Fits(format, DecodeOne(format, bytes)) && EncodeOne(format, DecodeOne(format, bytes)) == bytes
  {
    match format
    case S16Le =>
      LevelsSurvive(Signed16(Word16(bytes[0], bytes[1])));
      Bytes16(Word16(bytes[0], bytes[1]), bytes[0], bytes[1]);
      hide Pcm16, LittleEndian16, Word16, Signed16;
      assert [bytes[0], bytes[1]] == bytes;
    case F32Le =>
      Bytes32(Word16(bytes[0], bytes[1]) + 0x1_0000 * Word16(bytes[2], bytes[3]), bytes[0], bytes[1], bytes[2], bytes[3]);
      hide LittleEndian32, Word16;
      assert [bytes[0], bytes[1], bytes[2], bytes[3]] == bytes;
  }

  lemma Bytes16(word: nat, b0: nat, b1: nat)
    requires b0 < 256 && b1 < 256 && word == b0 + 0x100 * b1
    ensures word < 0x1_0000 && -32768 <= Signed16(word) <= 32767 && LittleEndian16(Signed16(word)) == [b0, b1]
  {
  }

  lemma Bytes32(word: nat, b0: nat, b1: nat, b2: nat, b3: nat)
    requires b0 < 256 && b1 < 256 && b2 < 256 && b3 < 256
    requires word == b0 + 0x100 * b1 + 0x1_0000 * b2 + 0x100_0000 * b3
    ensures word < 0x1_0000_0000 && LittleEndian32(word) == [b0, b1, b2, b3]
  {
    assert word / 0x100 == b1 + 0x100 * b2 + 0x1_0000 * b3;
    assert word / 0x1_0000 == b2 + 0x100 * b3;
    assert word / 0x100_0000 == b3;
  }

  /** Writing back what was read reproduces the bytes of the whole samples. */
  lemma {:induction false} RoundTrip(format: Format, bytes: seq<Byte>)
    ensures forall s :: s in Decode(format, bytes) ==> Fits(format, s)
    ensures Encode(format, Decode(format, bytes)) == bytes[..|bytes| - Leftover(format, |bytes|)]
    decreases |bytes|
  {
    var width := Span(format, 1);
    if |bytes| >= width {
      SampleRoundTrip(format, bytes[..width]);
      RoundTrip(format, bytes[width..]);
      LeftoverShift(format, bytes);
      EncodeFirst(format, DecodeOne(format, bytes[..width]), Decode(format, bytes[width..]));
    }
  }

  lemma EncodeFirst(format: Format, first: Sample, rest: seq<Sample>)
    requires Fits(format, first) && forall s :: s in rest ==> Fits(format, s)
    ensures forall s :: s in [first] + rest ==> Fits(format, s)
    ensures Encode(format, [first] + rest) == EncodeOne(format, first) + Encode(format, rest)
  {
    assert ([first] + rest)[1..] == rest;
  }

  lemma LeftoverShift(format: Format, bytes: seq<Byte>)
    requires |bytes| >= Span(format, 1)
    ensures var width := Span(format, 1);
            var rest := bytes[width..];
            bytes[..|bytes| - Leftover(format, |bytes|)] == bytes[..width] + rest[..|rest| - Leftover(format, |rest|)]
  {
  }

  /** A write is off by at most half a step exactly when the value is not beyond
      full scale by more than that. */
  lemma HalfStep(value: real)
    ensures var scaled := value * 32768.0;
            -0.5 <= Pcm16(value) as real - scaled <= 0.5 <==> -32768.5 <= scaled <= 32767.5
  {
    var scaled := value * 32768.0;
    NearestInteger(scaled);
  }

  lemma NearestInteger(x: real)
    ensures -0.5 <= RoundAway(x) as real - x <= 0.5
  {
  }

  /** Full scale itself is a whole step off. */
  lemma FullScaleIsOffByOne()
    ensures Pcm16(1.0) as real - 1.0 * 32768.0 == -1.0
  {
    FloorIs(32768.5, 32768);
  }

  /** Louder is never written softer. */
  lemma PcmIsMonotone(a: real, b: real)
    requires a <= b
    ensures Pcm16(a) <= Pcm16(b)
  {
    var x, y := a * 32768.0, b * 32768.0;
    assert x <= y;
    assert RoundAway(x) <= RoundAway(y);
  }

  // --------------------------------------------------------- chunk invariance

  /** Decoding whole samples first and the rest later is decoding at once. */
  lemma {:induction false} DecodeAppend(format: Format, a: seq<Byte>, b: seq<Byte>)
    requires Leftover(format, |a|) == 0
    ensures Decode(format, a + b) == Decode(format, a) + Decode(format, b)
    decreases |a|
  {
    var width := Span(format, 1);
    hide DecodeOne;
    if a == [] {
      assert a + b == b;
    } else {
      assert |a| >= width && Leftover(format, |a| - width) == 0;
      DecodeAppend(format, a[width..], b);
      assert (a + b)[..width] == a[..width] && (a + b)[width..] == a[width..] + b;
    }
  }

  lemma TooFewDecodeToNothing(format: Format, tail: seq<Byte>)
    requires |tail| < Span(format, 1)
    ensures Decode(format, tail) == []
  {
  }

  lemma LeftoverOf(format: Format, whole: nat, n: nat, rest: nat)
    requires Leftover(format, whole) == 0 && rest < Span(format, 1)
    ensures Leftover(format, whole + Span(format, n) + rest) == rest
  {
    match format
    case S16Le => DivModUnique(whole + 2 * n + rest, 2, whole / 2 + n, rest);
    case F32Le => DivModUnique(whole + 4 * n + rest, 4, whole / 4 + n, rest);
  }

  // ------------------------------------------------------------------ stream

  /** What one read of the byte stream does. */
  datatype Event = Chunk(bytes: seq<Byte>) | End | Interrupted | Failed

  predicate NoFailure(schedule: seq<Event>) {
    forall e :: e in schedule ==> !e.Failed?
  }

  /** The bytes a schedule still holds. */
  function Left(schedule: seq<Event>): nat {
    if schedule == [] then 0 else (if schedule[0].Chunk? then |schedule[0].bytes| else 0) + Left(schedule[1..])
  }

  /** The bytes a stream still yields, however they are cut, up to its end. */
  function Content(schedule: seq<Event>): seq<Byte> {
    if schedule == [] then []
    else
      match schedule[0]
      case Chunk(bytes) => if bytes == [] then [] else bytes + Content(schedule[1..])
      case End => []
      case Interrupted => Content(schedule[1..])
      case Failed => Content(schedule[1..])
  }

  lemma ContentSplits(bytes: seq<Byte>, rest: seq<Event>, limit: nat)
    requires 0 < limit < |bytes|
    ensures bytes[..limit] + Content([Chunk(bytes[limit..])] + rest) == bytes + Content(rest)
  {
    assert ([Chunk(bytes[limit..])] + rest)[1..] == rest;
  }

  /** What becomes of a stream: no bytes appear, and no failures. */
  ghost predicate Onward(schedule: seq<Event>, given: seq<Byte>, schedule': seq<Event>, given': seq<Byte>) {
    && |given'| + Left(schedule') <= |given| + Left(schedule)
    && (NoFailure(schedule) ==> NoFailure(schedule'))
  }

  /** A byte stream whose reads follow a schedule, and end after it. */
  class ByteStream {
    var schedule: seq<Event>
    /** Every byte handed out so far. */
    var given: seq<Byte>

    constructor (schedule: seq<Event>)
      ensures this.schedule == schedule && given == []
    {
      this.schedule, given := schedule, [];
    }

    /** At most `limit` bytes; the rest of a longer chunk stays. */
    method Read(limit: nat) returns (event: Event)
      requires limit > 0
      modifies this
      ensures given == old(given) + if event.Chunk? then event.bytes else []
      ensures event.Chunk? ==> 0 < |event.bytes| <= limit
      ensures if event.End? then Content(old(schedule)) == [] && given == old(given)
              else given + Content(schedule) == old(given) + Content(old(schedule))
      ensures event.Interrupted? ==> |schedule| < |old(schedule)|
      ensures event.Failed? ==> !NoFailure(old(schedule))
      ensures Onward(old(schedule), old(given), schedule, given)
    {
      if schedule == [] {
        return End;
      }
      event := schedule[0];
      schedule := schedule[1..];
      if event.Chunk? {
        if |event.bytes| > limit {
          ContentSplits(event.bytes, schedule, limit);
          assert ([Chunk(event.bytes[limit..])] + schedule)[1..] == schedule;
          schedule := [Chunk(event.bytes[limit..])] + schedule;
          event := Chunk(event.bytes[..limit]);
        } else if event.bytes == [] {
          return End;
        }
        given := given + event.bytes;
      }
    }
  }

  /** A stream read from on: nothing of it is lost, and its end comes only after all
      of it. */
  ghost predicate ReadOn(schedule: seq<Event>, given: seq<Byte>, schedule': seq<Event>, given': seq<Byte>, ended: bool) {
    if ended then given' == given + Content(schedule) else given' + Content(schedule') == given + Content(schedule)
  }

  /** Decodes the first `n` samples of `bytes` into `buf`. */
  method DecodeRun(format: Format, bytes: seq<Byte>, n: nat, buf: array<Sample>)
    requires Span(format, n) <= |bytes| && n <= buf.Length
    modifies buf
    ensures buf[..n] == Decode(format, bytes[..Span(format, n)]) && buf[n..] == old(buf[n..])
  {
    hide DecodeOne;
    for i := 0 to n
      invariant buf[n..] == old(buf[n..]) && Span(format, i) <= |bytes|
      invariant buf[..i] == Decode(format, bytes[..Span(format, i)])
    {
      buf[i] := DecodeOne(format, bytes[Span(format, i)..Span(format, i + 1)]);
      DecodeNext(format, bytes, i);
      assert buf[..i + 1] == buf[..i] + [buf[i]];
    }
  }

  /** Whole samples move from the carry to what was returned. */
  lemma Taking(format: Format, given: seq<Byte>, taken: seq<Byte>, carry: seq<Byte>, n: nat)
    requires Leftover(format, |taken|) == 0 && taken + carry == given && Span(format, n) <= |carry|
    ensures var whole := carry[..Span(format, n)];
            && Leftover(format, |taken + whole|) == 0
            && Decode(format, taken + whole) == Decode(format, taken) + Decode(format, whole)
            && (taken + whole) + carry[Span(format, n)..] == given
  {
    LeftoverOf(format, |taken|, n, 0);
    hide Decode, Leftover;
    DecodeAppend(format, taken, carry[..Span(format, n)]);
  }

  class RawPcmReader {
    const inner: ByteStream
    const format: Format
    /** The bytes taken from the stream that no returned sample has used. */
    var carry: seq<Byte>
    var eof: bool
    var trailing: nat
    /** The bytes returned as samples, and those samples. */
    ghost var taken: seq<Byte>
    ghost var delivered: seq<Sample>

    /** The stream so far is the bytes returned, those dropped at its end, and
        the carry; what was returned is the decoding of the first of these. */
    ghost predicate Valid()
      reads this, inner
    {
      && Leftover(format, |taken|) == 0 && delivered == Decode(format, taken)
      && trailing < Span(format, 1)
      && |inner.given| == |taken| + trailing + |carry| && taken <= inner.given
      && inner.given[|taken| + trailing..] == carry
      && (trailing > 0 ==> eof && carry == [])
    }

    constructor (inner: ByteStream, format: Format)
      requires inner.given == []
      ensures Valid() && this.inner == inner && this.format == format && delivered == [] && !eof && trailing == 0
    {
      this.inner, this.format := inner, format;
      carry, eof, trailing, taken, delivered := [], false, 0, [], [];
    }

    /** Reads once from the stream into the carry, retrying interruptions. */
    method Fill() returns (r: Result<()>)
      requires Valid() && !eof
      modifies this`carry, this`eof, inner
      ensures Valid()
      ensures r.Err? ==> carry == old(carry) && !eof && inner.given == old(inner.given)
      ensures r.Ok? ==> old(carry) <= carry && (eof <==> carry == old(carry))
      ensures r.Ok? ==> |inner.given| == |old(inner.given)| + |carry| - |old(carry)|
      ensures Onward(old(inner.schedule), old(inner.given), inner.schedule, inner.given)
      ensures r.Err? ==> !NoFailure(old(inner.schedule))
      ensures ReadOn(old(inner.schedule), old(inner.given), inner.schedule, inner.given, eof)
    {
      hide Decode, Leftover, Left, NoFailure, Content;
      while true
        invariant Valid() && !eof && carry == old(carry) && inner.given == old(inner.given)
        invariant inner.given + Content(inner.schedule) == old(inner.given) + Content(old(inner.schedule))
        invariant Onward(old(inner.schedule), old(inner.given), inner.schedule, inner.given)
        decreases |inner.schedule|
      {
        var event := inner.Read(8192);
        match event {
          case End =>
            assert inner.given + [] == inner.given;
            eof := true;
            return Ok(());
          case Chunk(bytes) =>
            carry := carry + bytes;
            return Ok(());
          case Interrupted =>
          case Failed =>
            return Err("Failed to read raw PCM");
        }
      }
    }

    /** Whether the rest of the stream starts with a RIFF header. The bytes
        looked at stay buffered. */
    method StartsWithWavHeader() returns (r: Result<bool>)
      requires Valid()
      modifies this`carry, this`eof, inner
      ensures Valid() && old(inner.given) <= inner.given
      ensures r.Ok? ==> eof || |carry| >= 4
      ensures |old(carry)| >= 4 ==> inner.given == old(inner.given) && carry == old(carry)
      ensures if old(eof) then eof && inner.given == old(inner.given)
              else ReadOn(old(inner.schedule), old(inner.given), inner.schedule, inner.given, eof)
      ensures r.Err? ==> !NoFailure(old(inner.schedule))
      ensures r.Ok? ==> (r.value <==> [0x52, 0x49, 0x46, 0x46] <= inner.given[|taken| + trailing..])
    {
      while |carry| < 4 && !eof
        invariant Valid() && old(inner.given) <= inner.given
        invariant Onward(old(inner.schedule), old(inner.given), inner.schedule, inner.given)
        invariant |old(carry)| >= 4 ==> carry == old(carry) && inner.given == old(inner.given)
        invariant if old(eof) then eof && inner.given == old(inner.given)
                  else ReadOn(old(inner.schedule), old(inner.given), inner.schedule, inner.given, eof)
        decreases !eof, 4 - |carry|
      {
        ghost var was := inner.given;
        var filled := Fill();
        assert was <= inner.given;
        if filled.Err? {
          return Err(filled.error);
        }
      }
      return Ok(RIFF <= carry);
    }

    /** Decodes as many whole samples as are carried and wanted. */
    method DecodeInto(buf: array<Sample>) returns (n: nat)
      requires Valid() && trailing == 0
      modifies this`carry, this`taken, this`delivered, buf
      ensures Valid() && n == (if Whole(format, |old(carry)|) < buf.Length then Whole(format, |old(carry)|) else buf.Length)
      ensures delivered == old(delivered) + buf[..n] && buf[n..] == old(buf[n..])
      ensures |carry| == |old(carry)| - Span(format, n)
    {
      n := Whole(format, |carry|);
      if n > buf.Length {
        n := buf.Length;
      }
      DecodeRun(format, carry, n, buf);
      ghost var whole := carry[..Span(format, n)];
      Taking(format, inner.given, taken, carry, n);
      delivered := delivered + buf[..n];
      taken := taken + whole;
      carry := carry[Span(format, n)..];
    }

    /** Fills a prefix of `buf`; none at all only at the end of the stream. */
    method Read(buf: array<Sample>) returns (r: Result<nat>)
      requires Valid()
      modifies this`carry, this`eof, this`trailing, this`taken, this`delivered, inner, buf
      ensures Valid() && old(inner.given) <= inner.given
      ensures r.Ok? ==> r.value <= buf.Length && delivered == old(delivered) + buf[..r.value] && buf[r.value..] == old(buf[r.value..])
      ensures r.Err? ==> delivered == old(delivered) && taken == old(taken) && buf[..] == old(buf[..])
      ensures r.Ok? && r.value == 0 && buf.Length > 0 ==>
                eof && delivered == Decode(format, inner.given) && trailing == Leftover(format, |inner.given|)
      ensures r.Ok? && r.value < buf.Length ==> |carry| < Span(format, 1)
      ensures buf.Length == 0 ==> r == Ok(0) && carry == old(carry) && eof == old(eof) && trailing == old(trailing)
      ensures buf.Length == 0 || |old(carry)| >= Span(format, 1) ==> inner.given == old(inner.given) && eof == old(eof)
      ensures if old(eof) then eof && inner.given == old(inner.given)
              else ReadOn(old(inner.schedule), old(inner.given), inner.schedule, inner.given, eof)
      ensures Onward(old(inner.schedule), old(inner.given), inner.schedule, inner.given)
      ensures r.Err? ==> !NoFailure(old(inner.schedule))
    {
      hide Left, NoFailure, Content;
      if buf.Length == 0 {
        return Ok(0);
      }
      var width := Span(format, 1);
      while |carry| < width && !eof
        invariant Valid() && old(inner.given) <= inner.given && trailing == old(trailing)
        invariant delivered == old(delivered) && taken == old(taken) && buf[..] == old(buf[..])
        invariant Onward(old(inner.schedule), old(inner.given), inner.schedule, inner.given)
        invariant |old(carry)| >= width ==> inner.given == old(inner.given) && eof == old(eof)
        invariant if old(eof) then eof && inner.given == old(inner.given)
                  else ReadOn(old(inner.schedule), old(inner.given), inner.schedule, inner.given, eof)
        decreases !eof, width - |carry|
      {
        ghost var was := inner.given;
        var filled := Fill();
        assert was <= inner.given;
        if filled.Err? {
          return Err(filled.error);
        }
      }
      if |carry| < width {
        var n := |carry|;
        AtTheEnd(format, inner.given, taken, if n > 0 then n else trailing);
        if n > 0 && trailing == 0 {
          trailing := n;
        }
        carry := [];
        return Ok(0);
      }
      var n := DecodeInto(buf);
      return Ok(n);
    }
  }

  lemma DecodeNext(format: Format, bytes: seq<Byte>, i: nat)
    requires Span(format, i + 1) <= |bytes|
    ensures Decode(format, bytes[..Span(format, i + 1)]) ==
            Decode(format, bytes[..Span(format, i)]) + [DecodeOne(format, bytes[Span(format, i)..Span(format, i + 1)])]
  {
    var front, one := bytes[..Span(format, i)], bytes[Span(format, i)..Span(format, i + 1)];
    assert front + one == bytes[..Span(format, i + 1)];
    DecodeAppend(format, front, one);
    assert one[..Span(format, 1)] == one && one[Span(format, 1)..] == [];
  }

  lemma AtTheEnd(format: Format, given: seq<Byte>, taken: seq<Byte>, rest: nat)
    requires Leftover(format, |taken|) == 0 && taken <= given && |given| == |taken| + rest && rest < Span(format, 1)
    ensures Leftover(format, |given|) == rest && Decode(format, given) == Decode(format, taken)
  {
    hide Decode, Leftover;
    var tail := given[|taken|..];
    assert given == taken + tail;
    AtTheEndOf(format, taken, tail);
  }

  lemma AtTheEndOf(format: Format, taken: seq<Byte>, tail: seq<Byte>)
    requires Leftover(format, |taken|) == 0 && |tail| < Span(format, 1)
    ensures Leftover(format, |taken + tail|) == |tail| && Decode(format, taken + tail) == Decode(format, taken)
  {
    LeftoverOf(format, |taken|, 0, |tail|);
    hide Decode, Leftover;
    TooFewDecodeToNothing(format, tail);
    DecodeAppend(format, taken, tail);
  }

  /** Writes samples to a byte stream as they come. */
  class RawPcmWriter {
    const format: Format
    /** The stream below never fails. */
    const reliable: bool
    var written: seq<Byte>

    constructor (format: Format, reliable: bool)
      ensures this.format == format && this.reliable == reliable && written == []
    {
      this.format, this.reliable, written := format, reliable, [];
    }

    /** All of the samples, or an error after some prefix of their bytes. */
    method Write(samples: seq<Sample>) returns (r: Result<nat>)
      requires forall s :: s in samples ==> Fits(format, s)
      modifies this
      ensures if r.Ok? then r.value == |samples| && written == old(written) + Encode(format, samples)
              else exists k: nat :: k <= |Encode(format, samples)| && written == old(written) + Encode(format, samples)[..k]
      ensures reliable ==> r.Ok?
    {
      var bytes: seq<Byte> := [];
      for i := 0 to |samples|
        invariant bytes == Encode(format, samples[..i]) && written == old(written)
      {
        bytes := bytes + EncodeOne(format, samples[i]);
        EncodeNext(format, samples, i);
      }
      assert samples[..|samples|] == samples;
      var sent: nat :| sent <= |bytes|;
      var fails: bool := *;
      if fails && !reliable {
        written := written + bytes[..sent];
        return Err("Failed to write raw PCM");
      }
      written := written + bytes;
      return Ok(|samples|);
    }
  }

  lemma {:induction false} EncodeAppend(format: Format, a: seq<Sample>, b: seq<Sample>)
    requires forall s :: s in a + b ==> Fits(format, s)
    ensures (forall s :: s in a ==> Fits(format, s)) && (forall s :: s in b ==> Fits(format, s))
    ensures Encode(format, a + b) == Encode(format, a) + Encode(format, b)
  {
    assert forall s :: s in a ==> s in a + b;
    assert forall s :: s in b ==> s in a + b;
    if a == [] {
      assert a + b == b;
    } else {
      assert a[1..] + b == (a + b)[1..];
      EncodeAppend(format, a[1..], b);
    }
  }

  lemma EncodeNext(format: Format, samples: seq<Sample>, i: nat)
    requires i < |samples| && forall s :: s in samples ==> Fits(format, s)
    ensures Encode(format, samples[..i + 1]) == Encode(format, samples[..i]) + EncodeOne(format, samples[i])
  {
    assert samples[..i + 1] == samples[..i] + [samples[i]];
    EncodeAppend(format, samples[..i], [samples[i]]);
    assert [samples[i]][1..] == [];
  }

  /** Copying a stream through the reader and the writer, by whatever reads and
      buffer size, reproduces its bytes but for an incomplete last sample. */
  method CopyStream(reader: RawPcmReader, writer: RawPcmWriter, buffer: nat, limit: nat) returns (done: bool)
    requires reader.Valid() && reader.format == writer.format && reader.delivered == [] && reader.taken == []
    requires writer.written == [] && buffer > 0
    modifies reader, writer, reader.inner
    ensures done ==>
              && reader.Valid()
              && writer.written == reader.inner.given[..|reader.inner.given| - reader.trailing]
              && reader.trailing == Leftover(reader.format, |reader.inner.given|)
    ensures done && !old(reader.eof) ==> reader.inner.given == old(reader.inner.given) + Content(old(reader.inner.schedule))
    ensures (NoFailure(old(reader.inner.schedule)) && writer.reliable &&
             limit > |old(reader.inner.given)| + Left(old(reader.inner.schedule))) ==> done
  {
    hide Encode, Decode, Fits, Leftover, Left, NoFailure, Content, RawPcmReader.Valid;
    var buf := new Sample[buffer](_ => Pattern(0));
    NothingEncoded(reader.format);
    for i := 0 to limit
      invariant reader.Valid() && fresh(buf)
      invariant forall s :: s in reader.delivered ==> Fits(reader.format, s)
      invariant writer.written == Encode(reader.format, reader.delivered)
      invariant Onward(old(reader.inner.schedule), old(reader.inner.given), reader.inner.schedule, reader.inner.given)
      invariant |reader.delivered| >= i
      invariant !old(reader.eof) ==> ReadOn(old(reader.inner.schedule), old(reader.inner.given), reader.inner.schedule,
                                            reader.inner.given, reader.eof)
    {
      ghost var before := reader.delivered;
      var read := reader.Read(buf);
      DeliveredFits(reader);
      if read.Err? {
        return false;
      }
      if read.value == 0 {
        assert reader.delivered == before;
        RoundTrip(reader.format, reader.inner.given);
        return true;
      }
      EncodeAppend(reader.format, before, buf[..read.value]);
      var wrote := writer.Write(buf[..read.value]);
      if wrote.Err? {
        return false;
      }
    }
    DeliveredIsGiven(reader);
    return false;
  }

  /** No more samples were returned than bytes read. */
  lemma DeliveredIsGiven(reader: RawPcmReader)
    requires reader.Valid()
    ensures |reader.delivered| <= |reader.inner.given|
  {
    DecodeIsShort(reader.format, reader.taken);
  }

  lemma {:induction false} DecodeIsShort(format: Format, bytes: seq<Byte>)
    ensures |Decode(format, bytes)| <= |bytes|
    decreases |bytes|
  {
    hide DecodeOne;
    if |bytes| >= Span(format, 1) {
      DecodeIsShort(format, bytes[Span(format, 1)..]);
    }
  }

  lemma NothingEncoded(format: Format)
    ensures Encode(format, []) == []
  {
  }

  lemma DeliveredFits(reader: RawPcmReader)
    requires reader.Valid()
    ensures forall s :: s in reader.delivered ==> Fits(reader.format, s)
  {
    DecodeFits(reader.format, reader.taken);
  }

  lemma DecodeFits(format: Format, bytes: seq<Byte>)
    ensures forall s :: s in Decode(format, bytes) ==> Fits(format, s)
  {
    RoundTrip(format, bytes);
  }
}
