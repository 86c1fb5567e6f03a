/** The single-use nonce store and the credential offers. */
module SessionStore {
  import opened Common

  class SessionStore {
    var nonces: set<string>
    var credentialOffers: map<string, string>

    constructor ()
      ensures nonces == {} && credentialOffers == map[]
    {
      nonces, credentialOffers := {}, map[];
    }

    method RegisterNonce(nonce: string)
      modifies this`nonces
      ensures nonces == Apply(old(nonces), Register(nonce))
    {
      nonces := nonces + {nonce};
    }

    /** Reports whether nonce is registered, consuming it if so. */
    method ValidateNonce(nonce: string) returns (ok: bool)
      modifies this`nonces
      ensures nonces == Apply(old(nonces), Validate(nonce))
      ensures ok <==> nonce in old(nonces)
    {
      ok := nonce in nonces;
      if ok {
        nonces := nonces - {nonce};
      }
    }

    method InvalidateNonce(nonce: string)
      modifies this`nonces
      ensures nonces == Apply(old(nonces), Invalidate(nonce))
    {
      nonces := nonces - {nonce};
    }

    /** id is the random offer id. */
    method StoreCredentialOffer(offerJson: string, id: string)
      modifies this`credentialOffers
      ensures credentialOffers == old(credentialOffers)[id := offerJson]
    {
      credentialOffers := credentialOffers[id := offerJson];
    }

    method GetCredentialOffer(id: string) returns (offer: Option<string>)
      ensures offer == if id in credentialOffers then Some(credentialOffers[id]) else None
    {
      if id in credentialOffers {
        return Some(credentialOffers[id]);
      }
      return None;
    }
  }

  /** Each operation is one region under the store's mutex, so an interleaving
      of callers is a sequence of these. */
  datatype Op = Register(nonce: string) | Validate(nonce: string) | Invalidate(nonce: string)

  function Apply(s: set<string>, op: Op): set<string> {
    match op
    case Register(n) => s + {n}
    case Validate(n) => s - {n}
    case Invalidate(n) => s - {n}
  }

  function ApplyAll(ops: seq<Op>): set<string> {
    if ops == [] then {} else Apply(ApplyAll(ops[..|ops| - 1]), ops[|ops| - 1])
  }

  function Registrations(ops: seq<Op>, nonce: string): nat {
    if ops == [] then 0
    else Registrations(ops[..|ops| - 1], nonce) + if ops[|ops| - 1] == Register(nonce) then 1 else 0
  }

  /** How often ValidateNonce has said yes to nonce. */
  function Acceptances(ops: seq<Op>, nonce: string): nat {
    if ops == [] then 0
    else Acceptances(ops[..|ops| - 1], nonce) +
         if ops[|ops| - 1] == Validate(nonce) && nonce in ApplyAll(ops[..|ops| - 1]) then 1 else 0
  }

  /** How often a nonce was registered that was not there already. */
  function Arrivals(ops: seq<Op>, nonce: string): nat {
    if ops == [] then 0
    else Arrivals(ops[..|ops| - 1], nonce) +
         if ops[|ops| - 1] == Register(nonce) && nonce !in ApplyAll(ops[..|ops| - 1]) then 1 else 0
  }

  /** How often InvalidateNonce has taken a nonce away. */
  function Withdrawals(ops: seq<Op>, nonce: string): nat {
    if ops == [] then 0
    else Withdrawals(ops[..|ops| - 1], nonce) +
         if ops[|ops| - 1] == Invalidate(nonce) && nonce in ApplyAll(ops[..|ops| - 1]) then 1 else 0
  }

  /** Nonces are conserved: in every interleaving, what has arrived was either
      accepted, or taken away, or is still there. So a nonce registered once is
      accepted at most once. */
  lemma {:induction false} NoncesAreConserved(ops: seq<Op>, nonce: string)
    ensures Acceptances(ops, nonce) + Withdrawals(ops, nonce) + (if nonce in ApplyAll(ops) then 1 else 0)
            == Arrivals(ops, nonce)
    ensures Arrivals(ops, nonce) <= Registrations(ops, nonce)
  {
    if ops != [] {
      NoncesAreConserved(ops[..|ops| - 1], nonce);
    }
  }

  /** The operation spends or withdraws the nonce, if it is there. */
  predicate Takes(op: Op, nonce: string) {
    op == Validate(nonce) || op == Invalidate(nonce)
  }

  /** A nonce is accepted at point j exactly when it was registered before and
      has been neither offered nor withdrawn since. */
  lemma {:induction false} AcceptedMeansUntakenSince(ops: seq<Op>, j: nat, nonce: string)
    requires j <= |ops|
    ensures nonce in ApplyAll(ops[..j]) <==>
            exists k :: 0 <= k < j && ops[k] == Register(nonce) && forall m :: k < m < j ==> !Takes(ops[m], nonce)
  {
    if j > 0 {
      AcceptedMeansUntakenSince(ops, j - 1, nonce);
      assert ops[..j][..j - 1] == ops[..j - 1] && ops[..j][j - 1] == ops[j - 1];
      if nonce in ApplyAll(ops[..j]) && ops[j - 1] != Register(nonce) {
        var k :| 0 <= k < j - 1 && ops[k] == Register(nonce) && forall m :: k < m < j - 1 ==> !Takes(ops[m], nonce);
        assert forall m :: k < m < j ==> !Takes(ops[m], nonce);
      }
    }
  }

  /** Between two acceptances of a nonce lies a registration of it. */
  lemma {:induction false} AcceptedTwiceMeansRegisteredBetween(ops: seq<Op>, i: nat, j: nat, nonce: string)
    requires i < j < |ops|
    requires ops[i] == Validate(nonce) && nonce in ApplyAll(ops[..j])
    ensures exists k :: i < k < j && ops[k] == Register(nonce)
    decreases j
  {
    assert ops[..j][..j - 1] == ops[..j - 1];
    if ops[j - 1] == Register(nonce) {
      assert i < j - 1;
    } else if i < j - 1 {
      AcceptedTwiceMeansRegisteredBetween(ops, i, j - 1, nonce);
    }
  }
}
