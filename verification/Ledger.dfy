/** Rows of `alert_deliveries`: the send log that is also the dedupe ledger. Rows are never deleted. */
module Ledger {
  import opened Wrappers
  import opened Alerting

  datatype Status = Pending | Sent | Failed

  /** The row at index k has id k + 1. */
  datatype Delivery = Delivery(claim: Claim, status: Status, attempts: nat, error: Option<string>)

  function Claims(ledger: seq<Delivery>): (claims: seq<Claim>)
    ensures |claims| == |ledger|
    ensures forall i | 0 <= i < |ledger| :: claims[i] == ledger[i].claim
  {
    seq(|ledger|, i requires 0 <= i < |ledger| => ledger[i].claim)
  }

  function NewRow(c: Claim): Delivery { Delivery(c, Pending, 0, None) }

  /** `UPDATE ... WHERE id = id` of `MarkDeliverySent`. */
  function MarkedSent(ledger: seq<Delivery>, id: int, attempts: nat): (r: seq<Delivery>)
    ensures |r| == |ledger| && Claims(r) == Claims(ledger)
  {
    if 1 <= id <= |ledger|
    then ledger[id - 1 := ledger[id - 1].(status := Sent, attempts := attempts, error := None)]
    else ledger
  }

  /** `UPDATE ... WHERE id = id` of `MarkDeliveryFailed`. */
  function MarkedFailed(ledger: seq<Delivery>, id: int, attempts: nat, cause: string): (r: seq<Delivery>)
    ensures |r| == |ledger| && Claims(r) == Claims(ledger)
  {
    if 1 <= id <= |ledger|
    then ledger[id - 1 := ledger[id - 1].(status := Failed, attempts := attempts, error := Some(cause))]
    else ledger
  }

  function Pow2(n: nat): (p: nat)
    ensures p >= 1
  {
    if n == 0 then 1 else 2 * Pow2(n - 1)
  }

  lemma {:induction false} Pow2Monotone(m: nat, n: nat)
    requires m <= n
    ensures Pow2(m) <= Pow2(n)
    decreases n
  {
    if m < n { Pow2Monotone(m, n - 1); }
  }

  /** Ledger evolution: rows are only appended, and a row changes at most once, from pending to settled. */
  ghost predicate Evolves(l: seq<Delivery>, l': seq<Delivery>) {
    && |l| <= |l'|
    && forall i | 0 <= i < |l| ::
         || l'[i] == l[i]
         || (l'[i].claim == l[i].claim && l[i].status == Pending && l'[i].status != Pending)
  }

  lemma {:induction false} EvolvesTransitive(a: seq<Delivery>, b: seq<Delivery>, c: seq<Delivery>)
    requires Evolves(a, b) && Evolves(b, c)
    ensures Evolves(a, c)
  {
  }
}
