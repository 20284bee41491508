/** Flood control (main.go, readLoop): a token bucket per client, over real time in seconds. */
module FloodControl {

  const BURST := 10.0
  const RATE := 5.0

  datatype Bucket = Bucket(tokens: real, last: real)

  function Full(now: real): Bucket { Bucket(BURST, now) }

  /** The bucket's tokens when a message arrives. */
  function Refill(b: Bucket, now: real): real {
    var t := b.tokens + (now - b.last) * RATE;
    if t > BURST then BURST else t
  }

  predicate Accepts(b: Bucket, now: real) { Refill(b, now) >= 1.0 }

  function Arrive(b: Bucket, now: real): Bucket {
    Bucket(if Accepts(b, now) then Refill(b, now) - 1.0 else Refill(b, now), now)
  }

  class Client {
    var floodTokens: real
    var floodLastTime: real

    function Value(): Bucket
      reads this
    {
      Bucket(floodTokens, floodLastTime)
    }

    constructor (now: real)
      ensures Value() == Full(now)
    {
      floodTokens := BURST;
      floodLastTime := now;
    }

    method Admit(now: real) returns (accepted: bool)
      modifies this
      ensures accepted == Accepts(old(Value()), now) && Value() == Arrive(old(Value()), now)
    {
      floodTokens := floodTokens + (now - floodLastTime) * RATE;
      if floodTokens > BURST {
        floodTokens := BURST;
      }
      floodLastTime := now;
      if floodTokens < 1.0 {
        return false;
      }
      floodTokens := floodTokens - 1.0;
      return true;
    }
  }

  // ----- Runs -----

  /** Arrival times in order, none before the connection. */
  ghost predicate InOrder(start: real, ts: seq<real>) {
    && (forall i :: 0 <= i < |ts| ==> start <= ts[i])
    && (forall i, j :: 0 <= i <= j < |ts| ==> ts[i] <= ts[j])
  }

  /** The bucket after all arrivals. */
  function After(start: real, ts: seq<real>): Bucket {
    if ts == [] then Full(start) else Arrive(After(start, ts[..|ts| - 1]), ts[|ts| - 1])
  }

  predicate Accepted(start: real, ts: seq<real>, i: nat)
    requires i < |ts|
  {
    Accepts(After(start, ts[..i]), ts[i])
  }

  /** How many of the messages from `i` up to, not including, `j` are accepted. */
  function AcceptedCount(start: real, ts: seq<real>, i: nat, j: nat): nat
    requires i <= j <= |ts|
    decreases j
  {
    if i == j then 0 else AcceptedCount(start, ts, i, j - 1) + (if Accepted(start, ts, j - 1) then 1 else 0)
  }

  lemma {:induction false} TokensInRange(start: real, ts: seq<real>)
    requires InOrder(start, ts)
    ensures 0.0 <= After(start, ts).tokens <= BURST
    ensures After(start, ts).last == if ts == [] then start else ts[|ts| - 1]
  {
    if ts != [] { TokensInRange(start, ts[..|ts| - 1]); }
  }

  /** What the messages of a window cost never exceeds a full bucket and what was refilled since the
      first of them. */
  lemma {:induction false} WindowCost(start: real, ts: seq<real>, i: nat, j: nat)
    requires InOrder(start, ts) && i < j <= |ts|
    ensures AcceptedCount(start, ts, i, j) as real + After(start, ts[..j]).tokens
         <= BURST + RATE * (ts[j - 1] - ts[i])
    decreases j
  {
    assert ts[..j][..j - 1] == ts[..j - 1];
    TokensInRange(start, ts[..j - 1]);
    if j > i + 1 {
      WindowCost(start, ts, i, j - 1);
      assert ts[..j - 1][|ts[..j - 1]| - 1] == ts[j - 2];
    } else {
      assert AcceptedCount(start, ts, i, i) == 0;
    }
  }

  /** In any run, the messages accepted from one arrival to a later one, both included, number at most
      10 plus 5 for each second between the two. */
  lemma RateBound(start: real, ts: seq<real>, i: nat, j: nat)
    requires InOrder(start, ts) && i <= j < |ts|
    ensures AcceptedCount(start, ts, i, j + 1) as real <= 10.0 + 5.0 * (ts[j] - ts[i])
  {
    WindowCost(start, ts, i, j + 1);
    TokensInRange(start, ts[..j + 1]);
  }

  /** A message that arrives at least a fifth of a second after the one before it is accepted. */
  lemma SpacedAccepted(start: real, ts: seq<real>, i: nat)
    requires InOrder(start, ts) && i < |ts|
    requires i > 0 ==> ts[i] - ts[i - 1] >= 0.2
    ensures Accepted(start, ts, i)
  {
    TokensInRange(start, ts[..i]);
    if i > 0 { assert ts[..i][|ts[..i]| - 1] == ts[i - 1]; }
  }

  // ----- When nothing is dropped -----

  ghost predicate AllAccepted(start: real, ts: seq<real>, n: nat)
    requires n <= |ts|
  {
    forall i: nat :: i < n ==> Accepted(start, ts, i)
  }

  /** While nothing is dropped, the tokens are what is left of a full bucket since it was last full. */
  lemma {:induction false} LastFull(start: real, ts: seq<real>, n: nat) returns (i: nat)
    requires InOrder(start, ts) && 1 <= n <= |ts| && AllAccepted(start, ts, n)
    ensures i < n && After(start, ts[..n]).tokens == BURST + RATE * (ts[n - 1] - ts[i]) - (n - i) as real
  {
    var before := After(start, ts[..n - 1]);
    assert ts[..n][..n - 1] == ts[..n - 1] && Accepted(start, ts, n - 1);
    TokensInRange(start, ts[..n - 1]);
    i := n - 1;
    if n > 1 && before.tokens + (ts[n - 1] - ts[n - 2]) * RATE <= BURST {
      i := LastFull(start, ts, n - 1);
      assert ts[..n - 1][|ts[..n - 1]| - 1] == ts[n - 2];
    }
  }

  lemma {:induction false} CountAll(start: real, ts: seq<real>, i: nat, j: nat)
    requires i <= j <= |ts| && AllAccepted(start, ts, |ts|)
    ensures AcceptedCount(start, ts, i, j) == j - i
    decreases j
  {
    if i < j {
      CountAll(start, ts, i, j - 1);
      assert Accepted(start, ts, j - 1);
    }
  }

  /** From any arrival to any later one, both included, there are at most 10 and 5 for each second between. */
  ghost predicate Moderate(ts: seq<real>) {
    forall i, j :: 0 <= i <= j < |ts| ==> (j - i + 1) as real <= 10.0 + 5.0 * (ts[j] - ts[i])
  }

  lemma {:induction false} ModerateAccepted(start: real, ts: seq<real>, n: nat)
    requires InOrder(start, ts) && Moderate(ts) && n <= |ts|
    ensures AllAccepted(start, ts, n)
  {
    if n > 0 {
      ModerateAccepted(start, ts, n - 1);
      TokensInRange(start, ts[..n - 1]);
      if n > 1 {
        var i := LastFull(start, ts, n - 1);
        assert ts[..n - 1][|ts[..n - 1]| - 1] == ts[n - 2];
        assert (n - 1 - i + 1) as real <= 10.0 + 5.0 * (ts[n - 1] - ts[i]);
      }
      assert Accepted(start, ts, n - 1);
    }
  }

  /** Every message of a run is accepted if and only if none of its windows has more than 10 and 5 a second:
      so ten at once are accepted, and of eleven at once not all. */
  lemma AllAcceptedIff(start: real, ts: seq<real>)
    requires InOrder(start, ts)
    ensures AllAccepted(start, ts, |ts|) <==> Moderate(ts)
  {
    if Moderate(ts) { ModerateAccepted(start, ts, |ts|); }
    if AllAccepted(start, ts, |ts|) {
      forall i, j | 0 <= i <= j < |ts| ensures (j - i + 1) as real <= 10.0 + 5.0 * (ts[j] - ts[i]) {
        CountAll(start, ts, i, j + 1);
        RateBound(start, ts, i, j);
      }
    }
  }
}
