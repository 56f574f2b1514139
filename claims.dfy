/** Looking up and removing a case's unread claims by their document hash. */
module ClaimLists {
  import opened ArbTypes

  /** True when some claim in `claims` has `hash` as its summary link. */
  predicate HasClaim(claims: seq<Claim>, hash: string)
  {
    exists i :: 0 <= i < |claims| && claims[i].claimSummary == hash
  }

  /** The position of the first claim whose summary link is `hash`, if any. */
  function FindClaim(claims: seq<Claim>, hash: string): (r: Option<nat>)
    ensures r.Some? <==> HasClaim(claims, hash)
    ensures r.Some? ==> r.value < |claims| && claims[r.value].claimSummary == hash
    ensures r.Some? ==> forall j :: 0 <= j < r.value ==> claims[j].claimSummary != hash
    decreases |claims|
  {
    if claims == [] then None
    else if claims[0].claimSummary == hash then Some(0)
    else
      var rest := FindClaim(claims[1..], hash);
      assert HasClaim(claims, hash) ==> HasClaim(claims[1..], hash) by {
        if HasClaim(claims, hash) {
          var i :| 0 <= i < |claims| && claims[i].claimSummary == hash;
          assert i != 0 && claims[1..][i - 1] == claims[i];
        }
      }
      if rest.Some? then Some(rest.value + 1) else None
  }

  /** `claims` with the element at `i` taken out, the others kept in order. */
  function RemoveAt(claims: seq<Claim>, i: nat): (r: seq<Claim>)
    requires i < |claims|
    ensures |r| == |claims| - 1
    ensures forall j :: 0 <= j < i ==> r[j] == claims[j]
    ensures forall j :: i <= j < |r| ==> r[j] == claims[j + 1]
    ensures multiset(r) + multiset{claims[i]} == multiset(claims)
  {
    assert claims == claims[..i] + [claims[i]] + claims[i + 1..];
    claims[..i] + claims[i + 1..]
  }

  /**
   * The list after withdrawing the first claim filed under `hash`, with the claim taken out,
   * or None when no claim has that hash.
   */
  function TakeClaim(claims: seq<Claim>, hash: string): (r: Option<(seq<Claim>, Claim)>)
    ensures r.None? <==> !HasClaim(claims, hash)
    ensures r.Some? ==> r.value.1.claimSummary == hash
    ensures r.Some? ==> |r.value.0| == |claims| - 1
    ensures r.Some? ==> multiset(r.value.0) + multiset{r.value.1} == multiset(claims)
  {
    match FindClaim(claims, hash)
    case None => None
    case Some(i) => Some((RemoveAt(claims, i), claims[i]))
  }

  /** Removing a claim by hash removes one occurrence of it: repeating it fails once none is left. */
  lemma {:induction false} TakeClaimCountsDown(claims: seq<Claim>, hash: string)
    requires TakeClaim(claims, hash).Some?
    ensures Count(TakeClaim(claims, hash).value.0, hash) == Count(claims, hash) - 1
  {
    var i := FindClaim(claims, hash).value;
    CountSplit(claims, i, hash);
    CountSplit(TakeClaim(claims, hash).value.0, i, hash);
    var r := TakeClaim(claims, hash).value.0;
    assert r[..i] == claims[..i];
    assert r[i..] == claims[i + 1..];
    assert claims[i..] == [claims[i]] + claims[i + 1..];
    CountCons(claims[i], claims[i + 1..], hash);
  }

  /** The number of claims filed under `hash`. */
  function Count(claims: seq<Claim>, hash: string): (n: nat)
    ensures n == 0 <==> !HasClaim(claims, hash)
    ensures n <= |claims|
    decreases |claims|
  {
    if claims == [] then 0
    else
      var rest := Count(claims[1..], hash);
      assert HasClaim(claims, hash) <==> claims[0].claimSummary == hash || HasClaim(claims[1..], hash) by {
        if HasClaim(claims, hash) && claims[0].claimSummary != hash {
          var i :| 0 <= i < |claims| && claims[i].claimSummary == hash;
          assert claims[1..][i - 1] == claims[i];
        }
        if HasClaim(claims[1..], hash) {
          var i :| 0 <= i < |claims[1..]| && claims[1..][i].claimSummary == hash;
          assert claims[i + 1] == claims[1..][i];
        }
      }
      (if claims[0].claimSummary == hash then 1 else 0) + rest
  }

  lemma CountCons(c: Claim, rest: seq<Claim>, hash: string)
    ensures Count([c] + rest, hash) == (if c.claimSummary == hash then 1 else 0) + Count(rest, hash)
  {
    assert ([c] + rest)[1..] == rest;
  }

  /** Count distributes over a split of the list at `i`. */
  lemma {:induction false} CountSplit(claims: seq<Claim>, i: nat, hash: string)
    requires i <= |claims|
    ensures Count(claims, hash) == Count(claims[..i], hash) + Count(claims[i..], hash)
    decreases i
  {
    if i == 0 {
      assert claims[..0] == [] && claims[0..] == claims;
    } else {
      var tail := claims[1..];
      CountSplit(tail, i - 1, hash);
      assert claims[..i][1..] == tail[..i - 1];
      assert claims[i..] == tail[i - 1..];
    }
  }

}
