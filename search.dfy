/** The proof-of-work search as a function of everything it consumes: the
    nonces the generator will hand out, in order, and the clock readings the
    search will take, one after each hash. */
module ProofSearch {
  import opened BitStream
  import opened Difficulty

  datatype Option<T> = None | Some(value: T)

  /** How a search ended: the nonce it returns (None for the timeout's null)
      and how many nonces it drew and hashed. */
  datatype Outcome = Outcome(result: Option<seq<byte>>, attempts: nat)

  /** The clock reading t, taken after hashing, is past the time budget. */
  predicate Expired(timeout: int, start: int, t: int) {
    t - start > timeout
  }

  /** The digest the search computes for a nonce: the payload followed by the
      nonce, hashed with the configured algorithm. */
  function DigestOf(digest: (string, seq<byte>) -> seq<byte>, algo: string,
                    data: seq<byte>, nonce: seq<byte>): seq<byte>
  {
    digest(algo, data + nonce)
  }

  /** The search goes on past attempt i: it did not time out and the digest
      of nonce i misses the difficulty. */
  predicate Continues(digest: (string, seq<byte>) -> seq<byte>, algo: string, timeout: int,
                      difficulty: int, data: seq<byte>, nonces: seq<seq<byte>>,
                      start: int, times: seq<int>, i: nat)
    requires i < |nonces| && i < |times|
  {
    && !Expired(timeout, start, times[i])
    && !Accepts(DigestOf(digest, algo, data, nonces[i]), difficulty)
  }

  /** What the search returns when it stops at attempt i: null after a
      timeout, the nonce otherwise. */
  function StopResult(timeout: int, start: int, nonces: seq<seq<byte>>, times: seq<int>, i: nat)
    : Option<seq<byte>>
    requires i < |nonces| && i < |times|
  {
    if Expired(timeout, start, times[i]) then None else Some(nonces[i])
  }

  /** The search: draw a nonce, hash the payload followed by it, read the
      clock; stop with null if the time budget is exceeded, stop with the
      nonce if its digest meets the difficulty, otherwise draw the next.
      None means the supplied nonces or clock readings ran out before the
      search stopped. */
  function Search(digest: (string, seq<byte>) -> seq<byte>, algo: string, timeout: int,
                  difficulty: int, data: seq<byte>, nonces: seq<seq<byte>>,
                  start: int, times: seq<int>): (o: Option<Outcome>)
    ensures o.Some? ==> 1 <= o.value.attempts <= |nonces| && o.value.attempts <= |times|
    ensures o.Some? && o.value.result.Some? ==>
              o.value.result.value == nonces[o.value.attempts - 1]
    decreases |nonces|
  {
    if nonces == [] || times == [] then None
    else if Expired(timeout, start, times[0]) then Some(Outcome(None, 1))
    else if Accepts(DigestOf(digest, algo, data, nonces[0]), difficulty) then
      Some(Outcome(Some(nonces[0]), 1))
    else
      match Search(digest, algo, timeout, difficulty, data, nonces[1..], start, times[1..])
      case None => None
      case Some(o) => Some(Outcome(o.result, o.attempts + 1))
  }

  /** A search that stops after k attempts went on past every earlier attempt
      and stopped at attempt k - 1: with null exactly when that attempt's
      clock reading exceeded the budget (even if its digest met the
      difficulty), and otherwise with that attempt's nonce, whose digest meets
      the difficulty. So a returned nonce is the first acceptable one in
      generator order. */
  lemma {:induction false} SearchStopsAtFirstStop(
    digest: (string, seq<byte>) -> seq<byte>, algo: string, timeout: int, difficulty: int,
    data: seq<byte>, nonces: seq<seq<byte>>, start: int, times: seq<int>)
    requires Search(digest, algo, timeout, difficulty, data, nonces, start, times).Some?
    ensures var o := Search(digest, algo, timeout, difficulty, data, nonces, start, times).value;
      && 1 <= o.attempts <= |nonces| && o.attempts <= |times|
      && (forall i | 0 <= i < o.attempts - 1 ::
            Continues(digest, algo, timeout, difficulty, data, nonces, start, times, i))
      && !Continues(digest, algo, timeout, difficulty, data, nonces, start, times, o.attempts - 1)
      && o.result == StopResult(timeout, start, nonces, times, o.attempts - 1)
      && (o.result.Some? ==>
            Accepts(DigestOf(digest, algo, data, o.result.value), difficulty))
  {
    var o := Search(digest, algo, timeout, difficulty, data, nonces, start, times).value;
    if !Expired(timeout, start, times[0])
       && !Accepts(DigestOf(digest, algo, data, nonces[0]), difficulty)
    {
      SearchStopsAtFirstStop(digest, algo, timeout, difficulty, data, nonces[1..], start, times[1..]);
      var o' := Search(digest, algo, timeout, difficulty, data, nonces[1..], start, times[1..]).value;
      assert o.attempts == o'.attempts + 1;
      forall i | 0 <= i < o.attempts - 1
        ensures Continues(digest, algo, timeout, difficulty, data, nonces, start, times, i)
      {
        if i > 0 {
          assert Continues(digest, algo, timeout, difficulty, data, nonces[1..], start, times[1..], i - 1);
        }
      }
    }
  }

  /** Conversely, if every attempt before k goes on and attempt k stops, the
      search ends after exactly k + 1 attempts with attempt k's result. */
  lemma {:induction false} SearchFindsFirstStop(
    digest: (string, seq<byte>) -> seq<byte>, algo: string, timeout: int, difficulty: int,
    data: seq<byte>, nonces: seq<seq<byte>>, start: int, times: seq<int>, k: nat)
    requires k < |nonces| && k < |times|
    requires forall i | 0 <= i < k ::
               Continues(digest, algo, timeout, difficulty, data, nonces, start, times, i)
    requires !Continues(digest, algo, timeout, difficulty, data, nonces, start, times, k)
    ensures Search(digest, algo, timeout, difficulty, data, nonces, start, times)
            == Some(Outcome(StopResult(timeout, start, nonces, times, k), k + 1))
  {
    if k > 0 {
      assert Continues(digest, algo, timeout, difficulty, data, nonces, start, times, 0);
      forall i | 0 <= i < k - 1
        ensures Continues(digest, algo, timeout, difficulty, data, nonces[1..], start, times[1..], i)
      {
        assert Continues(digest, algo, timeout, difficulty, data, nonces, start, times, i + 1);
      }
      assert !Continues(digest, algo, timeout, difficulty, data, nonces[1..], start, times[1..], k - 1);
      SearchFindsFirstStop(digest, algo, timeout, difficulty, data, nonces[1..], start, times[1..], k - 1);
    }
  }

  /** A sufficient condition for the search to finish within the supply: if
      the reading after attempt k is past the budget and nonces and readings
      last that long, the search stops after at most k + 1 attempts. */
  lemma {:induction false} ExpiredReadingStops(
    digest: (string, seq<byte>) -> seq<byte>, algo: string, timeout: int, difficulty: int,
    data: seq<byte>, nonces: seq<seq<byte>>, start: int, times: seq<int>, k: nat)
    requires k < |nonces| && k < |times| && Expired(timeout, start, times[k])
    ensures var o := Search(digest, algo, timeout, difficulty, data, nonces, start, times);
      o.Some? && o.value.attempts <= k + 1
  {
    if k > 0 && !Expired(timeout, start, times[0])
       && !Accepts(DigestOf(digest, algo, data, nonces[0]), difficulty)
    {
      ExpiredReadingStops(digest, algo, timeout, difficulty, data, nonces[1..], start, times[1..], k - 1);
    }
  }

  /** The first nonce is always drawn and hashed; if the clock reading after
      that hash is already past the budget, the search returns null after
      that single attempt, whatever the digest. */
  lemma TimeoutAfterFirstAttempt(
    digest: (string, seq<byte>) -> seq<byte>, algo: string, timeout: int, difficulty: int,
    data: seq<byte>, nonces: seq<seq<byte>>, start: int, times: seq<int>)
    requires nonces != [] && times != [] && Expired(timeout, start, times[0])
    ensures Search(digest, algo, timeout, difficulty, data, nonces, start, times)
            == Some(Outcome(None, 1))
  {
  }

  /** With difficulty 0 (or less) the search returns the first nonce, unless
      the first clock reading is already past the budget. */
  lemma ZeroDifficultyFirstNonce(
    digest: (string, seq<byte>) -> seq<byte>, algo: string, timeout: int, difficulty: int,
    data: seq<byte>, nonces: seq<seq<byte>>, start: int, times: seq<int>)
    requires difficulty <= 0 && nonces != [] && times != [] && !Expired(timeout, start, times[0])
    ensures Search(digest, algo, timeout, difficulty, data, nonces, start, times)
            == Some(Outcome(Some(nonces[0]), 1))
  {
  }
}
