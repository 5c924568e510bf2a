/** The prover object: block assembly, the leading-zero-bit test and the
    timeout-bounded nonce search, each proved against the definitions of the
    Difficulty and Search modules. */
module Prover {
  import opened BitStream
  import opened Difficulty
  import opened ProofSearch

  /** JavaScript's `a % 8`: the remainder of division truncated toward
      zero, so it takes the sign of a. */
  function JsRemainder8(a: int): (r: int)
    ensures -8 < r < 8 && (a - r) % 8 == 0
    ensures a >= 0 ==> r == a % 8
    ensures a <= 0 ==> r <= 0
  {
    if a >= 0 then a % 8 else -((-a) % 8)
  }

  /** A source of candidate nonces that hands them out in order, each as a
      new byte array. The finite list stands for whatever nonces the caller's
      generator would produce. */
  class NonceGenerator {
    var pending: seq<seq<byte>>

    constructor (nonces: seq<seq<byte>>)
      ensures pending == nonces
    {
      pending := nonces;
    }

    method Next() returns (nonce: array<byte>)
      requires pending != []
      modifies this
      ensures fresh(nonce) && nonce[..] == old(pending[0])
      ensures pending == old(pending[1..])
    {
      var n := pending[0];
      nonce := new byte[|n|](i requires 0 <= i < |n| => n[i]);
      pending := pending[1..];
    }
  }

  /** The wall clock, as the sequence of millisecond readings that successive
      calls of `Date.now()` return. */
  class Clock {
    var readings: seq<int>

    constructor (readings: seq<int>)
      ensures this.readings == readings
    {
      this.readings := readings;
    }

    method Now() returns (t: int)
      requires readings != []
      modifies this
      ensures t == old(readings[0]) && readings == old(readings[1..])
    {
      t := readings[0];
      readings := readings[1..];
    }
  }

  class Prover {
    const hashAlgo: string
    /** The time budget of one search, in milliseconds. */
    const timeout: int

    constructor (timeout: int := 6000)
      ensures this.timeout == timeout && hashAlgo == "SHA-256"
    {
      hashAlgo := "SHA-256";
      this.timeout := timeout;
    }

    /** A new array holding data followed by nonce; neither input changes. */
    method PrepareBlock(data: array<byte>, nonce: array<byte>) returns (block: array<byte>)
      ensures fresh(block)
      ensures block.Length == data.Length + nonce.Length
      ensures block[..data.Length] == data[..] && block[data.Length..] == nonce[..]
      ensures data[..] == old(data[..]) && nonce[..] == old(nonce[..])
    {
      block := new byte[data.Length + nonce.Length];
      var i := 0;
      while i < data.Length
        invariant 0 <= i <= data.Length
        invariant forall m | 0 <= m < i :: block[m] == data[m]
      {
        block[i] := data[i];
        i := i + 1;
      }
      i := 0;
      while i < nonce.Length
        invariant 0 <= i <= nonce.Length
        invariant forall m | 0 <= m < data.Length :: block[m] == data[m]
        invariant forall m | 0 <= m < i :: block[data.Length + m] == nonce[m]
      {
        block[data.Length + i] := nonce[i];
        i := i + 1;
      }
      assert block[..data.Length] == data[..];
      assert block[data.Length..] == nonce[..] by {
        forall m | 0 <= m < nonce.Length ensures block[data.Length..][m] == nonce[m] {
          assert block[data.Length..][m] == block[data.Length + m];
        }
      }
    }

    /** Whether digest h has at least `difficulty` leading zero bits, decided
        byte by byte and then with a mask on the next byte. Reads past the end
        of h follow JavaScript: the value read is undefined, which differs from
        0 in the whole-byte scan and acts as 0 under `&`. */
    method IsAcceptable(h: seq<byte>, difficulty: int) returns (ok: bool)
      ensures ok == Accepts(h, difficulty)
    {
      // Math.floor(difficulty / 8): Dafny's division by a positive divisor floors.
      var bytesZero := difficulty / 8;
      var bitsZero := JsRemainder8(difficulty);
      var bitMask: bv32 := 255;
      var bitOp: bv32 := 255;

      var i := 0;
      while i < bytesZero
        invariant 0 <= i <= |h|
        invariant bytesZero >= 0 ==> i <= bytesZero
        invariant ZeroBytes(h, i)
      {
        if i >= |h| {
          // undefined !== 0
          BeyondDigest(h, difficulty);
          return false;
        }
        if h[i] != 0 {
          NonzeroByteRejects(h, i, difficulty);
          return false;
        }
        i := i + 1;
      }

      if bitsZero == 0 {
        if difficulty > 0 {
          WholeBytes(h, bytesZero);
        }
        return true;
      }

      for j := 0 to 8 - bitsZero
        invariant bitOp == (0xFF as bv32) << j
      {
        ShiftOnceMore(j);
        bitOp := bitOp << 1;
      }
      bitOp := bitOp & bitMask;

      // undefined & bitOp is 0
      var b: bv32 := if i < |h| then h[i] as bv32 else 0;
      ok := b & bitOp == 0;

      if difficulty > 0 {
        assert bitOp == TopMask(bitsZero);
        if i < |h| {
          PartialByteMask(h, i, bitsZero);
        } else {
          LeadingZeroBytes(h, |h|);
        }
      } else {
        ShiftedPastByte(8 - bitsZero);
      }
    }

    /** Search the generator's nonces for one whose block digest meets the
        difficulty, within the time budget. Each pass draws a nonce, builds
        the block, hashes it with `digest` under `hashAlgo`, reads the clock
        and gives up with null once more than `timeout` milliseconds have
        passed since the start, before the difficulty is looked at; so the
        first nonce is always drawn and hashed. The requirement on the
        supplied nonces and readings is that they last until the search stops. */
    method Process(difficulty: int, data: array<byte>, nonceG: NonceGenerator, clock: Clock,
                   digest: (string, seq<byte>) -> seq<byte>)
      returns (nextNonce: array?<byte>)
      requires clock.readings != []
      requires Search(digest, hashAlgo, timeout, difficulty, data[..], nonceG.pending,
                      clock.readings[0], clock.readings[1..]).Some?
      modifies nonceG, clock
      ensures var o := Search(digest, hashAlgo, timeout, difficulty, data[..], old(nonceG.pending),
                              old(clock.readings[0]), old(clock.readings[1..])).value;
        && (nextNonce == null <==> o.result.None?)
        && (nextNonce != null ==> fresh(nextNonce) && nextNonce[..] == o.result.value)
        && nonceG.pending == old(nonceG.pending)[o.attempts..]
        && clock.readings == old(clock.readings)[o.attempts + 1..]
    {
      var now := clock.Now();
      ghost var nonces := nonceG.pending;
      ghost var times := clock.readings;
      ghost var k: nat := 0;

      while true
        invariant k <= |nonces| && k <= |times|
        invariant nonceG.pending == nonces[k..] && clock.readings == times[k..]
        invariant Search(digest, hashAlgo, timeout, difficulty, data[..], nonceG.pending,
                         now, clock.readings).Some?
        invariant var o := Search(digest, hashAlgo, timeout, difficulty, data[..], nonces, now, times).value;
                  var o' := Search(digest, hashAlgo, timeout, difficulty, data[..], nonceG.pending,
                                   now, clock.readings).value;
                  o == Outcome(o'.result, o'.attempts + k)
        decreases |nonceG.pending|
      {
        nextNonce := nonceG.Next();
        var block := PrepareBlock(data, nextNonce);
        var hash := digest(hashAlgo, block[..]);
        assert block[..] == data[..] + nextNonce[..];
        var t := clock.Now();

        if t - now > timeout {
          nextNonce := null;
          return;
        }
        var ok := IsAcceptable(hash, difficulty);
        if ok {
          return;
        }
        k := k + 1;
      }
    }
  }
}
