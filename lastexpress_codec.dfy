/**
  The run-length code of Last Express save-game entries
  (SavegameStream in engines/lastexpress/game/savegame.cpp), as pure state
  machines over byte sequences. The stream class drives these one byte at a
  time; here they are stated as folds and proved to round-trip.

  Compressed bytes:
    b < 0xFB      the literal b
    0xFE b        the literal b (escape for b >= 0xFB)
    0xFB          three zeros
    0xFC          255 zeros
    0xFD n        n zeros
    0xFF n v      n copies of v
*/
module LastExpressCodec {

  import opened Wrappers

  type byte = x: int | 0 <= x < 256

  /** One unit of compressed output: what one writeBuffer sequence emits and
      what one control byte of the decoder introduces. */
  datatype Token =
    | Literal(v: byte)
    | ZeroRun3
    | ZeroRun255
    | ZeroRun(n: byte)
    | Run(n: byte, v: byte)

  /** The shared coder registers _valueCount, _previousValue and _repeatCount. */
  datatype Coder = Coder(valueCount: int, previous: byte, repeatCount: int)

  /** n copies of v. */
  function Repeat(v: byte, n: nat): seq<byte>
  {
    seq(n, _ => v)
  }

  /** The bytes writeBuffer emits for a token: a literal goes through
      writeBuffer(v, false), which escapes 0xFB..0xFF with 0xFE; run codes go
      through writeBuffer(b, true), which writes b as it is. */
  function TokenBytes(t: Token): seq<byte>
  {
    match t
    case Literal(v) => if v >= 0xFB then [0xFE, v] else [v]
    case ZeroRun3 => [0xFB]
    case ZeroRun255 => [0xFC]
    case ZeroRun(n) => [0xFD, n]
    case Run(n, v) => [0xFF, n, v]
  }

  /** The bytes a token stands for, per the decoder's control switch. */
  function Expand(t: Token): seq<byte>
  {
    match t
    case Literal(v) => [v]
    case ZeroRun3 => Repeat(0, 3)
    case ZeroRun255 => Repeat(0, 255)
    case ZeroRun(n) => Repeat(0, n)
    case Run(n, v) => Repeat(v, n)
  }

  /** The decoder ends a run when its counter, set to n - 1, reaches zero;
      counts of 0 and 1 never reach zero, so run tokens need n >= 2. */
  predicate Decodable(t: Token)
  {
    match t
    case ZeroRun(n) => n >= 2
    case Run(n, _) => n >= 2
    case _ => true
  }

  function Flatten(ts: seq<Token>): seq<byte>
  {
    if ts == [] then [] else TokenBytes(ts[0]) + Flatten(ts[1..])
  }

  function ExpandAll(ts: seq<Token>): seq<byte>
  {
    if ts == [] then [] else Expand(ts[0]) + ExpandAll(ts[1..])
  }

  predicate AllDecodable(ts: seq<Token>)
  {
    forall i :: 0 <= i < |ts| ==> Decodable(ts[i])
  }

  lemma FlattenAppend(a: seq<Token>, b: seq<Token>)
    ensures Flatten(a + b) == Flatten(a) + Flatten(b)
    ensures ExpandAll(a + b) == ExpandAll(a) + ExpandAll(b)
  {
    FlattenBytesAppend(a, b);
    ExpandAllAppend(a, b);
  }

  lemma {:induction false} FlattenBytesAppend(a: seq<Token>, b: seq<Token>)
    ensures Flatten(a + b) == Flatten(a) + Flatten(b)
  {
    if a == [] {
      assert a + b == b;
    } else {
      var ab := a + b;
      assert ab != [] && ab[0] == a[0];
      assert ab[1..] == a[1..] + b;
      FlattenBytesAppend(a[1..], b);
      var t := TokenBytes(a[0]);
      assert Flatten(ab) == t + Flatten(a[1..] + b);
      assert t + (Flatten(a[1..]) + Flatten(b)) == (t + Flatten(a[1..])) + Flatten(b);
    }
  }

  lemma {:induction false} ExpandAllAppend(a: seq<Token>, b: seq<Token>)
    ensures ExpandAll(a + b) == ExpandAll(a) + ExpandAll(b)
  {
    if a == [] {
      assert a + b == b;
    } else {
      var ab := a + b;
      assert ab != [] && ab[0] == a[0];
      assert ab[1..] == a[1..] + b;
      ExpandAllAppend(a[1..], b);
      var e := Expand(a[0]);
      assert ExpandAll(ab) == e + ExpandAll(a[1..] + b);
      assert e + (ExpandAll(a[1..]) + ExpandAll(b)) == (e + ExpandAll(a[1..])) + ExpandAll(b);
    }
  }

  // ---------------------------------------------------------------------
  // Encoder (writeCompressed and the flush in process)
  // ---------------------------------------------------------------------

  /** The token writeCompressed emits when a run of `rc` copies of `prev`
      ends. _repeatCount is an int, so the `== -1` test is never true for a
      count the encoder builds; it is kept as written. */
  function RunToken(prev: byte, rc: int): Token
  {
    if prev != 0 then Run(rc % 256, prev)
    else if rc == 3 then ZeroRun3
    else if rc == -1 then ZeroRun255
    else ZeroRun(rc % 256)
  }

  /** One iteration of the writeCompressed loop on input byte d, with a
      `break` after the 0xFD path (see EncodeStepAsWritten for the code as
      written). Returns the new registers and the tokens emitted. */
  function EncodeStep(s: Coder, d: byte): (r: (Coder, seq<Token>))
    requires s.valueCount in {0, 1, 2}
    ensures r.0.valueCount in {1, 2} && r.0.previous == d
    ensures |r.1| <= 1
  {
    if s.valueCount == 0 then
      (Coder(1, d, s.repeatCount), [])
    else if s.valueCount == 1 then
      if d != s.previous then (Coder(1, d, s.repeatCount), [Literal(s.previous)])
      else (Coder(2, s.previous, 2), [])
    else
      if d != s.previous || s.repeatCount >= 255 then
        (Coder(1, d, s.repeatCount), [RunToken(s.previous, s.repeatCount)])
      else (Coder(2, s.previous, s.repeatCount + 1), [])
  }

  /** writeCompressed on a whole input: the loop's state after |x| iterations
      and every token emitted on the way. */
  function Encode(s: Coder, x: seq<byte>): (Coder, seq<Token>)
    requires s.valueCount in {0, 1, 2}
    ensures Encode(s, x).0.valueCount in {0, 1, 2}
    ensures x != [] ==> Encode(s, x).0.valueCount in {1, 2}
  {
    if x == [] then (s, [])
    else
      var (s1, t1) := Encode(s, x[..|x| - 1]);
      var (s2, t2) := EncodeStep(s1, x[|x| - 1]);
      (s2, t1 + t2)
  }

  /** One more loop iteration extends the fold by one step. */
  lemma EncodeExtend(s: Coder, x: seq<byte>, i: nat)
    requires s.valueCount in {0, 1, 2} && i < |x|
    ensures Encode(s, x[..i + 1]).0 == EncodeStep(Encode(s, x[..i]).0, x[i]).0
    ensures Flatten(Encode(s, x[..i + 1]).1) ==
      Flatten(Encode(s, x[..i]).1) + Flatten(EncodeStep(Encode(s, x[..i]).0, x[i]).1)
  {
    assert x[..i + 1][..i] == x[..i];
    FlattenAppend(Encode(s, x[..i]).1, EncodeStep(Encode(s, x[..i]).0, x[i]).1);
  }

  /** The pending literal or run that process() flushes in writing mode. */
  function Flush(s: Coder): (ts: seq<Token>)
    ensures |ts| <= 1
    ensures ts == [] <==> s.valueCount !in {1, 2}
  {
    if s.valueCount == 1 then [Literal(s.previous)]
    else if s.valueCount == 2 then
      if s.previous != 0 then [Run(s.repeatCount % 256, s.previous)]
      else if s.repeatCount == 3 then [ZeroRun3]
      else if s.repeatCount == 255 then [ZeroRun255]
      else [ZeroRun(s.repeatCount % 256)]
    else []
  }

  /** The registers between two writeCompressed iterations: a pending run
      holds 2..255 copies. */
  predicate EncoderReady(s: Coder)
  {
    s.valueCount in {0, 1, 2} && (s.valueCount == 2 ==> 2 <= s.repeatCount <= 255)
  }

  /** The input bytes read but not yet emitted. */
  function Pending(s: Coder): seq<byte>
    requires EncoderReady(s)
  {
    if s.valueCount == 0 then []
    else if s.valueCount == 1 then [s.previous]
    else Repeat(s.previous, s.repeatCount)
  }

  /** Each step emits decodable tokens which, followed by what is still
      pending, spell what was pending before plus the new byte. */
  lemma EncodeStepSound(s: Coder, d: byte)
    requires EncoderReady(s)
    ensures EncoderReady(EncodeStep(s, d).0)
    ensures EncodeStep(s, d).0.valueCount != 0
    ensures AllDecodable(EncodeStep(s, d).1)
    ensures ExpandAll(EncodeStep(s, d).1) + Pending(EncodeStep(s, d).0) == Pending(s) + [d]
  {
    var (s', ts) := EncodeStep(s, d);
    if s.valueCount == 2 && (d != s.previous || s.repeatCount >= 255) {
      RunTokenSound(s.previous, s.repeatCount);
      SingleToken(ts);
    } else if s.valueCount == 1 && d != s.previous {
      SingleToken(ts);
    }
  }

  /** The token for a finished run of 2..255 copies stands for exactly them. */
  lemma RunTokenSound(prev: byte, rc: int)
    requires 2 <= rc <= 255
    ensures Decodable(RunToken(prev, rc))
    ensures Expand(RunToken(prev, rc)) == Repeat(prev, rc)
  {
  }

  lemma SingleToken(ts: seq<Token>)
    requires |ts| == 1
    ensures ExpandAll(ts) == Expand(ts[0])
  {
    assert ExpandAll(ts) == Expand(ts[0]) + ExpandAll([]);
  }

  /** writeCompressed loses nothing: the emitted tokens expand to the input,
      except for the pending tail the registers still hold. */
  lemma {:induction false} EncodeSound(s: Coder, x: seq<byte>)
    requires EncoderReady(s)
    ensures EncoderReady(Encode(s, x).0)
    ensures AllDecodable(Encode(s, x).1)
    ensures ExpandAll(Encode(s, x).1) + Pending(Encode(s, x).0) == Pending(s) + x
  {
    if x != [] {
      var init, d := x[..|x| - 1], x[|x| - 1];
      assert x == init + [d];
      var e1 := Encode(s, init);
      EncodeSound(s, init);
      var e2 := EncodeStep(e1.0, d);
      EncodeStepSound(e1.0, d);
      assert Encode(s, x).0 == e2.0 && Encode(s, x).1 == e1.1 + e2.1;
      FlattenAppend(e1.1, e2.1);
      AllDecodableAppend(e1.1, e2.1);
      ShiftPending(ExpandAll(e1.1), ExpandAll(e2.1), Pending(e1.0), Pending(e2.0), Pending(s), init, d);
    }
  }

  /** The bookkeeping step of EncodeSound, on plain sequences. */
  lemma ShiftPending<T>(a: seq<T>, b: seq<T>, p1: seq<T>, p2: seq<T>, p: seq<T>, init: seq<T>, d: T)
    requires a + p1 == p + init
    requires b + p2 == p1 + [d]
    ensures (a + b) + p2 == p + (init + [d])
  {
    calc {
      (a + b) + p2;
      a + (b + p2);
      a + (p1 + [d]);
      (a + p1) + [d];
      (p + init) + [d];
    }
  }

  lemma AllDecodableAppend(a: seq<Token>, b: seq<Token>)
    requires AllDecodable(a) && AllDecodable(b)
    ensures AllDecodable(a + b)
  {
    forall i | 0 <= i < |a + b| ensures Decodable((a + b)[i]) {
      if i >= |a| { assert (a + b)[i] == b[i - |a|]; }
    }
  }

  /** process() flushes exactly the pending bytes, as decodable tokens. */
  lemma FlushSound(s: Coder)
    requires EncoderReady(s)
    ensures AllDecodable(Flush(s))
    ensures ExpandAll(Flush(s)) == Pending(s)
  {
    var f := Flush(s);
    if f != [] {
      assert ExpandAll(f) == Expand(f[0]) + ExpandAll([]);
    }
  }

  // ---------------------------------------------------------------------
  // Decoder (readCompressed)
  // ---------------------------------------------------------------------

  /** One iteration of the readCompressed loop on the compressed bytes `src`
      still to be read: the byte produced, the new registers and the bytes
      left. None when the iteration would read past the end of `src`. */
  function DecodeStep(s: Coder, src: seq<byte>): (r: Option<(byte, Coder, seq<byte>)>)
    requires s.valueCount in {0, 1, 2}
    ensures s.valueCount == 2 ==> r.Some? && r.value.0 == s.previous && r.value.2 == src
    ensures r.Some? ==> r.value.1.valueCount in {0, 1, 2}
    ensures r.Some? && s.valueCount != 2 ==> |r.value.2| < |src|
  {
    if s.valueCount == 2 then
      var rc := s.repeatCount - 1;
      Some((s.previous, Coder(if rc == 0 then 1 else 2, s.previous, rc), src))
    else if |src| == 0 then None
    else
      var c := src[0];
      if c < 0xFB then Some((c, s, src[1..]))
      else if c == 0xFB then Some((0, Coder(2, 0, 2), src[1..]))
      else if c == 0xFC then Some((0, Coder(2, 0, 254), src[1..]))
      else if c == 0xFD then
        if |src| < 2 then None else Some((0, Coder(2, 0, src[1] as int - 1), src[2..]))
      else if c == 0xFE then
        if |src| < 2 then None else Some((src[1], s, src[2..]))
      else
        if |src| < 3 then None else Some((src[2], Coder(2, src[2], src[1] as int - 1), src[3..]))
  }

  /** How many compressed bytes a control byte and its operands take. */
  function ControlLength(c: byte): nat
  {
    if c == 0xFF then 3 else if c >= 0xFD then 2 else 1
  }

  /** Whether the control byte at d[p] has all its operands in d. */
  predicate ControlFits(d: seq<byte>, p: nat)
  {
    p < |d| && p + ControlLength(d[p]) <= |d|
  }

  /** The byte the readCompressed loop stores for the control byte at d[p]. */
  function ControlOutput(d: seq<byte>, p: nat): byte
    requires ControlFits(d, p)
  {
    var c := d[p];
    if c < 0xFB then c
    else if c == 0xFE then d[p + 1]
    else if c == 0xFF then d[p + 2]
    else 0
  }

  /** The registers after the control byte at d[p]. */
  function ControlRegisters(s: Coder, d: seq<byte>, p: nat): Coder
    requires ControlFits(d, p)
  {
    var c := d[p];
    if c < 0xFB || c == 0xFE then s
    else if c == 0xFB then Coder(2, 0, 2)
    else if c == 0xFC then Coder(2, 0, 254)
    else if c == 0xFD then Coder(2, 0, d[p + 1] as int - 1)
    else Coder(2, d[p + 2], d[p + 1] as int - 1)
  }

  /** A step from a control byte succeeds exactly when its operands are
      there, and then consumes the control byte and its operands. */
  lemma DecodeStepControl(s: Coder, d: seq<byte>, p: nat)
    requires s.valueCount in {0, 1} && p <= |d|
    ensures DecodeStep(s, d[p..]).Some? <==> ControlFits(d, p)
    ensures ControlFits(d, p) ==>
      && DecodeStep(s, d[p..]).value.0 == ControlOutput(d, p)
      && DecodeStep(s, d[p..]).value.1 == ControlRegisters(s, d, p)
      && DecodeStep(s, d[p..]).value.2 == d[p + ControlLength(d[p])..]
  {
    if ControlFits(d, p) {
      assert d[p..][ControlLength(d[p])..] == d[p + ControlLength(d[p])..];
    }
  }

  /** readCompressed producing n bytes: the loop's output, registers and
      unread bytes after n iterations. */
  function Decode(s: Coder, src: seq<byte>, n: nat): Option<(seq<byte>, Coder, seq<byte>)>
    requires s.valueCount in {0, 1, 2}
    ensures Decode(s, src, n).Some? ==> |Decode(s, src, n).value.0| == n
    ensures Decode(s, src, n).Some? ==> Decode(s, src, n).value.1.valueCount in {0, 1, 2}
  {
    if n == 0 then Some(([], s, src))
    else match Decode(s, src, n - 1)
      case None => None
      case Some((out, s1, rest)) =>
        match DecodeStep(s1, rest)
        case None => None
        case Some((b, s2, rest2)) => Some((out + [b], s2, rest2))
  }

  /** Running a + b iterations is running a, then b from where they left off. */
  lemma {:induction false} DecodeAppend(s: Coder, src: seq<byte>, a: nat, b: nat)
    requires s.valueCount in {0, 1, 2}
    requires Decode(s, src, a).Some?
    ensures var (o1, s1, r1) := Decode(s, src, a).value;
      && (Decode(s, src, a + b).Some? <==> Decode(s1, r1, b).Some?)
      && (Decode(s1, r1, b).Some? ==>
            Decode(s, src, a + b).value ==
              (o1 + Decode(s1, r1, b).value.0, Decode(s1, r1, b).value.1, Decode(s1, r1, b).value.2))
  {
    var (o1, s1, r1) := Decode(s, src, a).value;
    if b == 0 {
      assert o1 + [] == o1;
    } else {
      DecodeAppend(s, src, a, b - 1);
      if Decode(s1, r1, b - 1).Some? {
        var (o2, s2, r2) := Decode(s1, r1, b - 1).value;
        assert Decode(s, src, a + b - 1) == Some((o1 + o2, s2, r2));
        match DecodeStep(s2, r2)
        case None =>
        case Some((c, s3, r3)) =>
          assert Decode(s1, r1, b) == Some((o2 + [c], s3, r3));
          SnocAssoc(o1, o2, c);
      }
    }
  }

  lemma SnocAssoc<T>(a: seq<T>, b: seq<T>, c: T)
    ensures (a + b) + [c] == a + (b + [c])
  {
  }

  /** Inside a run the decoder repeats its value without reading; after
      k iterations from a counter of k it is back to reading control bytes. */
  lemma {:induction false} RunTail(v: byte, k: nat, src: seq<byte>, j: nat)
    requires 1 <= k && j <= k
    ensures Decode(Coder(2, v, k), src, j) ==
      Some((Repeat(v, j), if j == k then Coder(1, v, 0) else Coder(2, v, k - j), src))
  {
    if j == 0 {
      assert Repeat(v, 0) == [];
    } else {
      RunTail(v, k, src, j - 1);
      assert Repeat(v, j - 1) + [v] == Repeat(v, j);
    }
  }

  /** Where the decoder's registers stand after a whole token. */
  function AfterToken(s: Coder, t: Token): Coder
  {
    match t
    case Literal(_) => s
    case ZeroRun3 => Coder(1, 0, 0)
    case ZeroRun255 => Coder(1, 0, 0)
    case ZeroRun(_) => Coder(1, 0, 0)
    case Run(_, v) => Coder(1, v, 0)
  }

  /** The decoder reads a token's bytes and produces exactly its expansion. */
  lemma DecodeToken(s: Coder, t: Token, rest: seq<byte>)
    requires s.valueCount in {0, 1}
    requires Decodable(t)
    ensures Decode(s, TokenBytes(t) + rest, |Expand(t)|) == Some((Expand(t), AfterToken(s, t), rest))
  {
    var src := TokenBytes(t) + rest;
    assert Decode(s, src, 0) == Some(([], s, src));
    assert [] + [Expand(t)[0]] == [Expand(t)[0]];
    match t
    case Literal(v) =>
      if v >= 0xFB {
        assert src[0] == 0xFE && src[1] == v && src[2..] == rest;
      } else {
        assert src[0] == v && src[1..] == rest;
      }
      assert DecodeStep(s, src) == Some((v, s, rest));
    case ZeroRun3 =>
      assert src[0] == 0xFB && src[1..] == rest;
      assert DecodeStep(s, src) == Some((0, Coder(2, 0, 2), rest));
      DecodeRun(s, src, 0, 3, rest, Coder(2, 0, 2));
    case ZeroRun255 =>
      assert src[0] == 0xFC && src[1..] == rest;
      assert DecodeStep(s, src) == Some((0, Coder(2, 0, 254), rest));
      DecodeRun(s, src, 0, 255, rest, Coder(2, 0, 254));
    case ZeroRun(n) =>
      assert src[0] == 0xFD && src[1] == n && src[2..] == rest;
      assert DecodeStep(s, src) == Some((0, Coder(2, 0, n - 1), rest));
      DecodeRun(s, src, 0, n, rest, Coder(2, 0, n - 1));
    case Run(n, v) =>
      assert src[0] == 0xFF && src[1] == n && src[2] == v && src[3..] == rest;
      assert DecodeStep(s, src) == Some((v, Coder(2, v, n - 1), rest));
      DecodeRun(s, src, v, n, rest, Coder(2, v, n - 1));
  }

  /** A run token: one reading iteration, then n - 1 repeating ones. */
  lemma DecodeRun(s: Coder, src: seq<byte>, v: byte, n: nat, rest: seq<byte>, s1: Coder)
    requires s.valueCount in {0, 1}
    requires n >= 2 && s1 == Coder(2, v, n - 1)
    requires Decode(s, src, 1).Some?
    requires Decode(s, src, 1).value.0 == [v]
    requires Decode(s, src, 1).value.1 == s1 && Decode(s, src, 1).value.2 == rest
    ensures Decode(s, src, n) == Some((Repeat(v, n), Coder(1, v, 0), rest))
  {
    DecodeAppend(s, src, 1, n - 1);
    RunTail(v, n - 1, rest, n - 1);
    RepeatSplit(v, n);
  }

  lemma RepeatSplit(v: byte, n: nat)
    requires n >= 1
    ensures [v] + Repeat(v, n - 1) == Repeat(v, n)
  {
  }

  /** The decoder's registers after a token sequence. */
  function AfterTokens(s: Coder, ts: seq<Token>): Coder
    decreases ts
  {
    if ts == [] then s else AfterTokens(AfterToken(s, ts[0]), ts[1..])
  }

  /** Decoding a sequence of decodable tokens produces their expansion and
      consumes exactly their bytes. */
  lemma {:induction false} DecodeTokens(s: Coder, ts: seq<Token>, rest: seq<byte>)
    requires s.valueCount in {0, 1}
    requires AllDecodable(ts)
    ensures AfterTokens(s, ts).valueCount in {0, 1}
    ensures Decode(s, Flatten(ts) + rest, |ExpandAll(ts)|) == Some((ExpandAll(ts), AfterTokens(s, ts), rest))
    decreases ts
  {
    if ts == [] {
      assert Flatten(ts) + rest == rest;
    } else {
      var t := ts[0];
      var tail := Flatten(ts[1..]) + rest;
      assert Flatten(ts) + rest == TokenBytes(t) + tail;
      assert Decodable(ts[0]);
      DecodeToken(s, t, tail);
      var s1 := AfterToken(s, t);
      assert AllDecodable(ts[1..]) by {
        forall i | 0 <= i < |ts[1..]| ensures Decodable(ts[1..][i]) {
          assert ts[1..][i] == ts[i + 1];
        }
      }
      DecodeTokens(s1, ts[1..], rest);
      var o1, o2 := Expand(t), ExpandAll(ts[1..]);
      DecodeAppend(s, Flatten(ts) + rest, |o1|, |o2|);
      assert |ExpandAll(ts)| == |o1| + |o2|;
      assert Decode(s, Flatten(ts) + rest, |o1| + |o2|).value.0 == o1 + o2 == ExpandAll(ts);
    }
  }

  /** The complete compressed image of an input written from fresh registers
      and then flushed. */
  function Compress(s: Coder, x: seq<byte>): seq<Token>
    requires s.valueCount in {0, 1, 2}
  {
    var (s1, ts) := Encode(s, x);
    ts + Flush(s1)
  }

  /** Round trip: what writeCompressed and process() emit for x, read back
      by readCompressed for |x| bytes, gives x, consuming exactly those bytes. */
  lemma RoundTrip(w: Coder, r: Coder, x: seq<byte>, rest: seq<byte>)
    requires w.valueCount == 0 && r.valueCount in {0, 1}
    ensures Decode(r, Flatten(Compress(w, x)) + rest, |x|).Some?
    ensures Decode(r, Flatten(Compress(w, x)) + rest, |x|).value.0 == x
    ensures Decode(r, Flatten(Compress(w, x)) + rest, |x|).value.2 == rest
  {
    var (s1, ts) := Encode(w, x);
    EncodeSound(w, x);
    FlushSound(s1);
    FlattenAppend(ts, Flush(s1));
    var all := ts + Flush(s1);
    assert AllDecodable(all) by {
      forall i | 0 <= i < |all| ensures Decodable(all[i]) {
        if i >= |ts| { assert all[i] == Flush(s1)[i - |ts|]; }
      }
    }
    assert ExpandAll(all) == x;
    DecodeTokens(r, all, rest);
  }

  // ---------------------------------------------------------------------
  // writeCompressed as written: the 0xFD path falls through
  // ---------------------------------------------------------------------

  /** One iteration of writeCompressed exactly as written, reading the
      caller's buffer at index i. In the 0xFD path there is no `break`, so
      control also reaches the `++data; ++_repeatCount` of the run branch:
      the data pointer advances twice, so the byte after the new value is
      skipped.
      None when the iteration reads buf[i] past the buffer's end. */
  function EncodeStepAsWritten(s: Coder, buf: seq<byte>, i: nat): Option<(Coder, seq<Token>, nat)>
    requires s.valueCount in {0, 1, 2}
  {
    if i >= |buf| then None
    else
      var d := buf[i];
      if s.valueCount != 2 || !(d != s.previous || s.repeatCount >= 255) then
        var (s', ts) := EncodeStep(s, d);
        Some((s', ts, i + 1))
      else if s.previous != 0 || s.repeatCount == 3 || s.repeatCount == -1 then
        Some((Coder(1, d, s.repeatCount), [RunToken(s.previous, s.repeatCount)], i + 1))
      else
        Some((Coder(1, d, s.repeatCount + 1), [ZeroRun(s.repeatCount % 256)], i + 2))
  }

  /** writeCompressed(buf, n) as written: n iterations from index 0. */
  function EncodeAsWritten(s: Coder, buf: seq<byte>, n: nat): Option<(Coder, seq<Token>, nat)>
    requires s.valueCount in {0, 1, 2}
    ensures EncodeAsWritten(s, buf, n).Some? ==> EncodeAsWritten(s, buf, n).value.0.valueCount in {0, 1, 2}
  {
    if n == 0 then Some((s, [], 0))
    else match EncodeAsWritten(s, buf, n - 1)
      case None => None
      case Some((s1, t1, i1)) =>
        match EncodeStepAsWritten(s1, buf, i1)
        case None => None
        case Some((s2, t2, i2)) => Some((s2, t1 + t2, i2))
  }

  predicate WroteAs(r: Option<(Coder, seq<Token>, nat)>, s: Coder, ts: seq<Token>, i: nat)
  {
    r.Some? && r.value.0 == s && r.value.1 == ts && r.value.2 == i
  }

  /** A zero run of two followed by other bytes: the 1 that ends the run
      is kept as the new value, but the fall-through then skips the byte
      after it, the 2. Writing [0, 0, 1, 2, 3, 4] with a count of 5 gives
      the image of [0, 0, 1, 3, 4], the 4 coming from beyond the count. */
  lemma FdFallThroughSkipsByte()
    ensures EncodeAsWritten(Coder(0, 0, 0), [0, 0, 1, 2, 3, 4], 5).Some?
    ensures var (s, ts, _) := EncodeAsWritten(Coder(0, 0, 0), [0, 0, 1, 2, 3, 4], 5).value;
      ExpandAll(ts + Flush(s)) == [0, 0, 1, 3, 4]
  {
    var b: seq<byte> := [0, 0, 1, 2, 3, 4];
    FifthAsWritten(b);
    var ts := [ZeroRun(2), Literal(1), Literal(3), Literal(4)];
    assert [ZeroRun(2), Literal(1), Literal(3)] + Flush(Coder(1, 4, 3)) == ts;
    ExpandExample(ts);
  }

  lemma FifthAsWritten(b: seq<byte>)
    requires b == [0, 0, 1, 2, 3, 4]
    ensures WroteAs(EncodeAsWritten(Coder(0, 0, 0), b, 5), Coder(1, 4, 3), [ZeroRun(2), Literal(1), Literal(3)], 6)
  {
    FirstFourAsWritten(b);
  }

  lemma ExpandExample(ts: seq<Token>)
    requires ts == [ZeroRun(2), Literal(1), Literal(3), Literal(4)]
    ensures ExpandAll(ts) == [0, 0, 1, 3, 4]
  {
    assert Repeat(0, 2) == [0, 0];
    assert ExpandAll(ts[3..]) == [4];
    assert ExpandAll(ts[2..]) == [3, 4];
    assert ExpandAll(ts[1..]) == [1, 3, 4];
  }

  /** The first four iterations on [0, 0, 1, 2, ...]: the 0xFD path of the
      third one moves the read index from 2 to 4. */
  lemma FirstFourAsWritten(b: seq<byte>)
    requires |b| >= 5 && b[..5] == [0, 0, 1, 2, 3]
    ensures WroteAs(EncodeAsWritten(Coder(0, 0, 0), b, 4), Coder(1, 3, 3), [ZeroRun(2), Literal(1)], 5)
  {
    var c0 := Coder(0, 0, 0);
    assert b[0] == 0 && b[1] == 0 && b[2] == 1 && b[4] == 3 by { assert b[..5][4] == b[4]; }
    assert WroteAs(EncodeAsWritten(c0, b, 0), c0, [], 0);
    assert WroteAs(EncodeAsWritten(c0, b, 1), Coder(1, 0, 0), [], 1);
    assert WroteAs(EncodeAsWritten(c0, b, 2), Coder(2, 0, 2), [], 2);
    assert WroteAs(EncodeAsWritten(c0, b, 3), Coder(1, 1, 3), [ZeroRun(2)], 4);
    assert WroteAs(EncodeAsWritten(c0, b, 4), Coder(1, 3, 3), [ZeroRun(2), Literal(1)], 5);
  }

  /** With exactly five bytes the same input makes the last iteration read
      one byte past the caller's buffer. */
  lemma FdFallThroughReadsPastEnd()
    ensures EncodeAsWritten(Coder(0, 0, 0), [0, 0, 1, 2, 3], 5).None?
  {
    var b: seq<byte> := [0, 0, 1, 2, 3];
    FirstFourAsWritten(b);
  }

  /** The corrected encoder on the same input round-trips. */
  lemma CorrectedEncoderKeepsByte()
    ensures ExpandAll(Compress(Coder(0, 0, 0), [0, 0, 1, 2, 3])) == [0, 0, 1, 2, 3]
  {
    var x: seq<byte> := [0, 0, 1, 2, 3];
    var (s1, ts) := Encode(Coder(0, 0, 0), x);
    EncodeSound(Coder(0, 0, 0), x);
    FlushSound(s1);
    FlattenAppend(ts, Flush(s1));
  }
}
