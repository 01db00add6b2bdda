/** The reputation bridge contract: a timelocked Merkle root and one-time claims against it. */
module ReputationBridge {
  import opened Hashing
  import opened Wrappers
  import SortedMerkle

  // ---------------------------------------------------------------------------
  // Values
  // ---------------------------------------------------------------------------

  const U64_MAX: nat := 0xFFFF_FFFF_FFFF_FFFF
  type U64 = n: nat | n <= U64_MAX
  const I128_BOUND: int := 0x8000_0000_0000_0000_0000_0000_0000_0000
  type I128 = n: int | -I128_BOUND <= n < I128_BOUND
  type Address = string

  /** One day, in ledger seconds. */
  const DELAY: U64 := 86_400

  /** Why an invocation panics. The last four are the host's own panics: a missing
      signature, checked arithmetic, an empty `unwrap` and a failing token transfer. */
  datatype Error =
    | NotInitialized | AlreadyInitialized | Unauthorized | TimelockNotExpired | NoPendingRoot
    | ProofAlreadyUsed | InvalidProof | InvalidAmount
    | MissingAuth | Overflow | EmptyUnwrap | TransferFailed

  /** SHA-256 of a pair of digests, and of an address with an amount. */
  datatype Crypto = Crypto(pair: PairHash, leaf: (Address, I128) -> Bytes32)

  /** The contract's storage keys, and the token balance it holds. */
  datatype World = World(
    initialized: bool,
    admin: Option<Address>,
    token: Option<Address>,
    snapshotRoot: Option<Bytes32>,
    pendingRoot: Option<Bytes32>,
    executeAfter: Option<U64>,
    usedProofs: set<Bytes32>,
    treasury: nat)

  function Fresh(treasury: nat): World {
    World(false, None, None, None, None, None, {}, treasury)
  }

  datatype Call =
    | Initialize(admin: Address, token: Address, initialRoot: Bytes32)
    | ProposeRoot(newRoot: Bytes32)
    | ExecuteRootUpdate
    | CancelRoot
    | Claim(user: Address, amount: I128, proof: seq<Bytes32>)
    | TransferAdmin(newAdmin: Address)
    | Deposit(tokens: nat) // someone sends tokens to the contract

  datatype Invocation = Invocation(time: U64, signers: set<Address>, call: Call)

  // ---------------------------------------------------------------------------
  // One invocation
  // ---------------------------------------------------------------------------

  function AdminRefusal(w: World, signers: set<Address>): Option<Error> {
    if !w.initialized then Some(NotInitialized)
    else if w.admin.None? then Some(Unauthorized)
    else if w.admin.value !in signers then Some(MissingAuth)
    else None
  }

  /** The panic an invocation ends in, if any. A panic leaves no trace in the world. */
  function Refusal(c: Crypto, w: World, i: Invocation): Option<Error> {
    match i.call
    case Initialize(admin, _, _) =>
      if w.initialized then Some(AlreadyInitialized)
      else if admin !in i.signers then Some(MissingAuth)
      else None
    case ProposeRoot(_) =>
      if AdminRefusal(w, i.signers).Some? then AdminRefusal(w, i.signers)
      else if i.time + DELAY > U64_MAX then Some(Overflow)
      else None
    case ExecuteRootUpdate =>
      if !w.initialized then Some(NotInitialized)
      else if w.pendingRoot.None? || w.executeAfter.None? then Some(NoPendingRoot)
      else if i.time < w.executeAfter.value then Some(TimelockNotExpired)
      else if w.snapshotRoot.None? then Some(EmptyUnwrap)
      else None
    case CancelRoot => AdminRefusal(w, i.signers)
    case Claim(user, amount, proof) =>
      if !w.initialized then Some(NotInitialized)
      else if user !in i.signers then Some(MissingAuth)
      else if amount <= 0 then Some(InvalidAmount)
      else if c.leaf(user, amount) in w.usedProofs then Some(ProofAlreadyUsed)
      else if w.snapshotRoot.None? then Some(NotInitialized)
      else if SortedMerkle.FoldSorted(c.pair, c.leaf(user, amount), proof) != w.snapshotRoot.value
      then Some(InvalidProof)
      else if w.token.None? then Some(EmptyUnwrap)
      else if w.treasury < amount then Some(TransferFailed)
      else None
    case TransferAdmin(_) => AdminRefusal(w, i.signers)
    case Deposit(_) => None
  }

  /** The world after an accepted invocation. */
  function Effect(c: Crypto, w: World, i: Invocation): World
    requires Refusal(c, w, i).None?
  {
    match i.call
    case Initialize(admin, token, root) =>
      w.(initialized := true, admin := Some(admin), token := Some(token), snapshotRoot := Some(root))
    case ProposeRoot(root) => w.(pendingRoot := Some(root), executeAfter := Some(i.time + DELAY))
    case ExecuteRootUpdate => w.(snapshotRoot := w.pendingRoot, pendingRoot := None, executeAfter := None)
    case CancelRoot => w.(pendingRoot := None, executeAfter := None)
    case Claim(user, amount, _) =>
      w.(usedProofs := w.usedProofs + {c.leaf(user, amount)}, treasury := w.treasury - amount)
    case TransferAdmin(newAdmin) => w.(admin := Some(newAdmin))
    case Deposit(tokens) => w.(treasury := w.treasury + tokens)
  }

  function Step(c: Crypto, w: World, i: Invocation): World {
    if Refusal(c, w, i).None? then Effect(c, w, i) else w
  }

  // ---------------------------------------------------------------------------
  // The contract object
  // ---------------------------------------------------------------------------

  class Contract {
    const crypto: Crypto
    var initialized: bool
    var admin: Option<Address>
    var token: Option<Address>
    var snapshotRoot: Option<Bytes32>
    var pendingRoot: Option<Bytes32>
    var executeAfter: Option<U64>
    var usedProofs: set<Bytes32>
    var treasury: nat

    function Now(): World
      reads this
    {
      World(initialized, admin, token, snapshotRoot, pendingRoot, executeAfter, usedProofs, treasury)
    }

    constructor (crypto: Crypto)
      ensures Now() == Fresh(0) && this.crypto == crypto
    {
      this.crypto := crypto;
      initialized, admin, token := false, None, None;
      snapshotRoot, pendingRoot, executeAfter := None, None, None;
      usedProofs, treasury := {}, 0;
    }

    method InitializeContract(time: U64, signers: set<Address>, newAdmin: Address, newToken: Address,
                              initialRoot: Bytes32)
      returns (panic: Option<Error>)
      modifies this
      ensures var i := Invocation(time, signers, Initialize(newAdmin, newToken, initialRoot));
              panic == Refusal(crypto, old(Now()), i) && Now() == Step(crypto, old(Now()), i)
    {
      if initialized {
        return Some(AlreadyInitialized);
      }
      if newAdmin !in signers {
        return Some(MissingAuth);
      }
      initialized := true;
      admin := Some(newAdmin);
      token := Some(newToken);
      snapshotRoot := Some(initialRoot);
      return None;
    }

    method RequireAdmin(signers: set<Address>) returns (panic: Option<Error>)
      ensures panic == AdminRefusal(Now(), signers)
    {
      if !initialized {
        return Some(NotInitialized);
      }
      match admin {
        case None => return Some(Unauthorized);
        case Some(a) => return if a in signers then None else Some(MissingAuth);
      }
    }

    method Propose(time: U64, signers: set<Address>, newRoot: Bytes32) returns (panic: Option<Error>)
      modifies this
      ensures var i := Invocation(time, signers, ProposeRoot(newRoot));
              panic == Refusal(crypto, old(Now()), i) && Now() == Step(crypto, old(Now()), i)
    {
      panic := RequireAdmin(signers);
      if panic.Some? {
        return;
      }
      if time + DELAY > U64_MAX {
        return Some(Overflow);
      }
      pendingRoot := Some(newRoot);
      executeAfter := Some(time + DELAY);
    }

    method Execute(time: U64, signers: set<Address>) returns (panic: Option<Error>)
      modifies this
      ensures var i := Invocation(time, signers, ExecuteRootUpdate);
              panic == Refusal(crypto, old(Now()), i) && Now() == Step(crypto, old(Now()), i)
    {
      if !initialized {
        return Some(NotInitialized);
      }
      if pendingRoot.None? {
        return Some(NoPendingRoot);
      }
      var pending := pendingRoot.value;
      if executeAfter.None? {
        return Some(NoPendingRoot);
      }
      if time < executeAfter.value {
        return Some(TimelockNotExpired);
      }
      if snapshotRoot.None? {
        return Some(EmptyUnwrap);
      }
      snapshotRoot := Some(pending);
      pendingRoot := None;
      executeAfter := None;
      return None;
    }

    method Cancel(time: U64, signers: set<Address>) returns (panic: Option<Error>)
      modifies this
      ensures var i := Invocation(time, signers, CancelRoot);
              panic == Refusal(crypto, old(Now()), i) && Now() == Step(crypto, old(Now()), i)
    {
      panic := RequireAdmin(signers);
      if panic.Some? {
        return;
      }
      pendingRoot := None;
      executeAfter := None;
    }

    /** The host undoes every write of an invocation that panics, so the transfer's own
        refusal is looked at before the leaf is marked. */
    method ClaimReward(time: U64, signers: set<Address>, user: Address, amount: I128, proof: seq<Bytes32>)
      returns (panic: Option<Error>)
      modifies this
      ensures var i := Invocation(time, signers, Claim(user, amount, proof));
              panic == Refusal(crypto, old(Now()), i) && Now() == Step(crypto, old(Now()), i)
    {
      if !initialized {
        return Some(NotInitialized);
      }
      if user !in signers {
        return Some(MissingAuth);
      }
      if amount <= 0 {
        return Some(InvalidAmount);
      }
      var leaf := crypto.leaf(user, amount);
      if leaf in usedProofs {
        return Some(ProofAlreadyUsed);
      }
      if snapshotRoot.None? {
        return Some(NotInitialized);
      }
      var ok := SortedMerkle.VerifyProof(crypto.pair, proof, snapshotRoot.value, leaf);
      if !ok {
        return Some(InvalidProof);
      }
      if token.None? {
        return Some(EmptyUnwrap);
      }
      if treasury < amount {
        return Some(TransferFailed);
      }
      usedProofs := usedProofs + {leaf};
      treasury := treasury - amount;
      return None;
    }

    method HandOver(time: U64, signers: set<Address>, newAdmin: Address) returns (panic: Option<Error>)
      modifies this
      ensures var i := Invocation(time, signers, TransferAdmin(newAdmin));
              panic == Refusal(crypto, old(Now()), i) && Now() == Step(crypto, old(Now()), i)
    {
      panic := RequireAdmin(signers);
      if panic.Some? {
        return;
      }
      admin := Some(newAdmin);
    }
  }

  // ---------------------------------------------------------------------------
  // Runs
  // ---------------------------------------------------------------------------

  type Run = seq<Invocation>

  /** The world after a whole run that starts from the deployed, not yet initialized contract. */
  function After(c: Crypto, treasury: nat, run: Run): World {
    if run == [] then Fresh(treasury)
    else Step(c, After(c, treasury, run[..|run| - 1]), run[|run| - 1])
  }

  /** The world in which invocation `k` of the run begins. */
  function Before(c: Crypto, treasury: nat, run: Run, k: nat): World
    requires k <= |run|
  {
    After(c, treasury, run[..k])
  }

  predicate Accepted(c: Crypto, treasury: nat, run: Run, k: nat)
    requires k < |run|
  {
    Refusal(c, Before(c, treasury, run, k), run[k]).None?
  }

  lemma BeforeNext(c: Crypto, treasury: nat, run: Run, k: nat)
    requires k < |run|
    ensures Before(c, treasury, run, k + 1) == Step(c, Before(c, treasury, run, k), run[k])
  {
    assert run[..k + 1][..k] == run[..k];
  }

  /** What every reachable world satisfies. */
  ghost predicate Consistent(w: World) {
    && (w.initialized <==> w.admin.Some?)
    && (w.initialized <==> w.token.Some?)
    && (w.initialized <==> w.snapshotRoot.Some?)
    && (w.pendingRoot.Some? <==> w.executeAfter.Some?)
    && (w.pendingRoot.Some? || w.usedProofs != {} ==> w.initialized)
  }

  /** The pending root and its deadline are both there or both absent, and the `unwrap`s and
      the late `NotInitialized`/`Unauthorized` panics of an initialized contract are never reached. */
  lemma {:induction false} EveryWorldIsConsistent(c: Crypto, treasury: nat, run: Run)
    ensures Consistent(After(c, treasury, run))
  {
    if run != [] {
      EveryWorldIsConsistent(c, treasury, run[..|run| - 1]);
    }
  }

  // ---------------------------------------------------------------------------
  // Initialization
  // ---------------------------------------------------------------------------

  ghost predicate InitializedAt(c: Crypto, treasury: nat, run: Run, i: nat) {
    i < |run| && run[i].call.Initialize? && Accepted(c, treasury, run, i)
  }

  /** A contract is initialized exactly when an initialization was accepted, and it keeps that one's token. */
  lemma {:induction false} InitializedExactly(c: Crypto, treasury: nat, run: Run, k: nat)
    requires k <= |run|
    ensures Before(c, treasury, run, k).initialized <==> exists i: nat :: i < k && InitializedAt(c, treasury, run, i)
    ensures forall i: nat | i < k && InitializedAt(c, treasury, run, i) ::
              Before(c, treasury, run, k).token == Some(run[i].call.token)
  {
    if k > 0 {
      var p := k - 1;
      InitializedExactly(c, treasury, run, p);
      BeforeNext(c, treasury, run, p);
      if InitializedAt(c, treasury, run, p) {
        assert forall i: nat | i < k && InitializedAt(c, treasury, run, i) :: i == p;
      } else {
        assert forall i: nat ::
          i < k && InitializedAt(c, treasury, run, i) <==> i < p && InitializedAt(c, treasury, run, i);
      }
    }
  }

  /** An initialization succeeds exactly when the new admin signs it and none succeeded before; it
      leaves the admin, the token and the root that it names. */
  lemma InitializationAcceptedExactly(c: Crypto, treasury: nat, run: Run, k: nat)
    requires k < |run| && run[k].call.Initialize?
    ensures Accepted(c, treasury, run, k) <==>
            run[k].call.admin in run[k].signers && forall i: nat | i < k :: !InitializedAt(c, treasury, run, i)
    ensures Accepted(c, treasury, run, k) ==>
              var w, call := Before(c, treasury, run, k + 1), run[k].call;
              w.admin == Some(call.admin) && w.token == Some(call.token) && w.snapshotRoot == Some(call.initialRoot)
  {
    InitializedExactly(c, treasury, run, k);
    BeforeNext(c, treasury, run, k);
  }

  // ---------------------------------------------------------------------------
  // Administration
  // ---------------------------------------------------------------------------

  /** Invocation `i` made `who` the admin, and no hand-over has been accepted since. */
  ghost predicate AppointedBy(c: Crypto, treasury: nat, run: Run, i: nat, k: nat, who: Address)
    requires k <= |run|
  {
    && i < k && Accepted(c, treasury, run, i)
    && (forall m | i < m < k && Accepted(c, treasury, run, m) :: !run[m].call.TransferAdmin?)
    && ((run[i].call.Initialize? && run[i].call.admin == who)
        || (run[i].call.TransferAdmin? && run[i].call.newAdmin == who))
  }

  lemma AppointmentKept(c: Crypto, treasury: nat, run: Run, k: nat, i: nat, who: Address)
    requires k < |run| && !(Accepted(c, treasury, run, k) && (run[k].call.Initialize? || run[k].call.TransferAdmin?))
    ensures AppointedBy(c, treasury, run, i, k + 1, who) <==> AppointedBy(c, treasury, run, i, k, who)
  {
  }

  /** An appointment that still stands after another one was accepted is that other one. */
  lemma LastAppointment(c: Crypto, treasury: nat, run: Run, k: nat, i: nat, who: Address)
    requires k < |run| && Accepted(c, treasury, run, k) && (run[k].call.Initialize? || run[k].call.TransferAdmin?)
    requires AppointedBy(c, treasury, run, i, k + 1, who)
    requires AppointedBy(c, treasury, run, i, k, who) ==> Before(c, treasury, run, k).initialized
    ensures i == k
  {
  }

  /** There is an admin exactly when somebody was appointed, and it is the last one appointed. */
  lemma {:induction false} AdminIsAppointed(c: Crypto, treasury: nat, run: Run, k: nat)
    requires k <= |run|
    ensures var admin := Before(c, treasury, run, k).admin;
            && (admin.Some? ==> exists i: nat :: AppointedBy(c, treasury, run, i, k, admin.value))
            && (forall i: nat, who: Address :: AppointedBy(c, treasury, run, i, k, who) ==> admin == Some(who))
  {
    if k > 0 {
      var p := k - 1;
      var call := run[p].call;
      AdminIsAppointed(c, treasury, run, p);
      BeforeNext(c, treasury, run, p);
      EveryWorldIsConsistent(c, treasury, run[..p]);
      if Accepted(c, treasury, run, p) && (call.Initialize? || call.TransferAdmin?) {
        var who := if call.Initialize? then call.admin else call.newAdmin;
        assert AppointedBy(c, treasury, run, p, k, who);
        forall i: nat, other: Address | AppointedBy(c, treasury, run, i, k, other) ensures other == who {
          LastAppointment(c, treasury, run, p, i, other);
        }
      } else {
        forall i: nat, who: Address
          ensures AppointedBy(c, treasury, run, i, k, who) <==> AppointedBy(c, treasury, run, i, p, who)
        {
          AppointmentKept(c, treasury, run, p, i, who);
        }
      }
    }
  }

  /** A proposal, cancellation or hand-over succeeds exactly when the last appointed admin signs it
      and, for a proposal, the deadline still fits its width. */
  lemma AdministrationAcceptedExactly(c: Crypto, treasury: nat, run: Run, k: nat)
    requires k < |run| && (run[k].call.ProposeRoot? || run[k].call.CancelRoot? || run[k].call.TransferAdmin?)
    ensures Accepted(c, treasury, run, k) <==>
            && (exists i: nat, who: Address :: AppointedBy(c, treasury, run, i, k, who) && who in run[k].signers)
            && (run[k].call.ProposeRoot? ==> run[k].time + 86_400 < 0x1_0000_0000_0000_0000)
  {
    AdminIsAppointed(c, treasury, run, k);
    EveryWorldIsConsistent(c, treasury, run[..k]);
  }

  /** Which panic a refused claim ends in, exactly, in every run after initialization: the checks are
      the signature, the amount, the replay, the proof and the transfer, in this order. */
  lemma ClaimPanicsExactly(c: Crypto, treasury: nat, run: Run, k: nat)
    requires k < |run| && run[k].call.Claim? && Before(c, treasury, run, k).initialized
    ensures var w, call := Before(c, treasury, run, k), run[k].call;
            var panic := Refusal(c, w, run[k]);
            var leaf := c.leaf(call.user, call.amount);
            var signed, positive, unused := call.user in run[k].signers, call.amount > 0, leaf !in w.usedProofs;
            var proved := w.snapshotRoot == Some(SortedMerkle.FoldSorted(c.pair, leaf, call.proof));
            && (panic == Some(MissingAuth) <==> !signed)
            && (panic == Some(InvalidAmount) <==> signed && !positive)
            && (panic == Some(ProofAlreadyUsed) <==> signed && positive && !unused)
            && (panic == Some(InvalidProof) <==> signed && positive && unused && !proved)
            && (panic == Some(TransferFailed) <==> signed && positive && unused && proved && w.treasury < call.amount)
            && (panic == None <==> signed && positive && unused && proved && call.amount <= w.treasury)
  {
    EveryWorldIsConsistent(c, treasury, run[..k]);
  }

  /** Which panic the others end in: whatever is asked before initialization is refused as such, then
      the admin's signature is asked for; an execution needs a pending root and its deadline. */
  lemma PanicsExactly(c: Crypto, treasury: nat, run: Run, k: nat)
    requires k < |run|
    ensures var w, call := Before(c, treasury, run, k), run[k].call;
            var panic := Refusal(c, w, run[k]);
            && (panic == Some(AlreadyInitialized) <==> call.Initialize? && w.initialized)
            && (panic == Some(NotInitialized) <==> !call.Initialize? && !call.Deposit? && !w.initialized)
            && (panic == Some(NoPendingRoot) <==> call.ExecuteRootUpdate? && w.initialized && w.pendingRoot.None?)
            && (panic == Some(TimelockNotExpired) <==>
                  && call.ExecuteRootUpdate? && w.initialized && w.pendingRoot.Some? && w.executeAfter.Some?
                  && run[k].time < w.executeAfter.value)
            && (call.ProposeRoot? || call.CancelRoot? || call.TransferAdmin? ==>
                  (panic == Some(MissingAuth) <==> w.initialized && w.admin.Some? && w.admin.value !in run[k].signers))
            && panic != Some(Unauthorized) && panic != Some(EmptyUnwrap)
  {
    EveryWorldIsConsistent(c, treasury, run[..k]);
  }

  // ---------------------------------------------------------------------------
  // Timelock
  // ---------------------------------------------------------------------------

  ghost predicate ProposedAt(c: Crypto, treasury: nat, run: Run, j: nat, root: Bytes32) {
    j < |run| && run[j].call == ProposeRoot(root) && Accepted(c, treasury, run, j)
  }

  /** No proposal, execution or cancellation took effect strictly between `j` and `k`. */
  ghost predicate Untouched(c: Crypto, treasury: nat, run: Run, j: nat, k: nat)
    requires k <= |run|
  {
    forall m | j < m < k && Accepted(c, treasury, run, m) ::
      !run[m].call.ProposeRoot? && !run[m].call.ExecuteRootUpdate? && !run[m].call.CancelRoot?
  }

  /** `j` is the live proposal of `root` when invocation `k` begins. */
  ghost predicate LiveProposal(c: Crypto, treasury: nat, run: Run, j: nat, k: nat, root: Bytes32)
    requires k <= |run|
  {
    j < k && ProposedAt(c, treasury, run, j, root) && Untouched(c, treasury, run, j, k)
  }

  lemma LiveProposalKept(c: Crypto, treasury: nat, run: Run, k: nat, j: nat, r: Bytes32)
    requires k < |run|
    requires var call := run[k].call;
             !(Accepted(c, treasury, run, k) && (call.ProposeRoot? || call.ExecuteRootUpdate? || call.CancelRoot?))
    ensures LiveProposal(c, treasury, run, j, k + 1, r) <==> LiveProposal(c, treasury, run, j, k, r)
  {
  }

  /** A root is pending exactly when some proposal is live, and then the stored root and
      deadline are that proposal's. */
  lemma {:induction false} PendingIsLiveProposal(c: Crypto, treasury: nat, run: Run, k: nat)
    requires k <= |run|
    ensures var w := Before(c, treasury, run, k);
            && (w.pendingRoot.Some? ==> exists j: nat :: LiveProposal(c, treasury, run, j, k, w.pendingRoot.value))
            && (forall j: nat, r: Bytes32 :: LiveProposal(c, treasury, run, j, k, r) ==>
                  w.pendingRoot == Some(r) && w.executeAfter.Some? && w.executeAfter.value == run[j].time + DELAY)
  {
    var w := Before(c, treasury, run, k);
    if k > 0 {
      var p := k - 1;
      PendingIsLiveProposal(c, treasury, run, p);
      BeforeNext(c, treasury, run, p);
      var call := run[p].call;
      if Accepted(c, treasury, run, p) && (call.ProposeRoot? || call.ExecuteRootUpdate? || call.CancelRoot?) {
        assert call.ProposeRoot? ==> LiveProposal(c, treasury, run, p, k, call.newRoot);
        assert forall j: nat, r: Bytes32 :: LiveProposal(c, treasury, run, j, k, r) ==> j == p;
      } else {
        forall j: nat, r: Bytes32
          ensures LiveProposal(c, treasury, run, j, k, r) <==> LiveProposal(c, treasury, run, j, p, r)
        {
          LiveProposalKept(c, treasury, run, p, j, r);
        }
      }
    }
  }

  /** When an execution succeeds, exactly: some proposal is live and at least one day old. */
  lemma ExecutionAcceptedExactly(c: Crypto, treasury: nat, run: Run, k: nat)
    requires k < |run| && run[k].call == ExecuteRootUpdate
    ensures Accepted(c, treasury, run, k) <==>
            exists j: nat, r: Bytes32 :: LiveProposal(c, treasury, run, j, k, r) && run[j].time + 86_400 <= run[k].time
  {
    var w := Before(c, treasury, run, k);
    EveryWorldIsConsistent(c, treasury, run[..k]);
    PendingIsLiveProposal(c, treasury, run, k);
  }

  /** Timelock: once set, the snapshot root changes only by executing the live proposal of the
      new root, made at least one day earlier. */
  lemma TimelockRespected(c: Crypto, treasury: nat, run: Run, k: nat) returns (j: nat)
    requires k < |run| && Before(c, treasury, run, k).initialized
    requires Before(c, treasury, run, k + 1).snapshotRoot != Before(c, treasury, run, k).snapshotRoot
    ensures run[k].call == ExecuteRootUpdate && Accepted(c, treasury, run, k)
    ensures Before(c, treasury, run, k + 1).snapshotRoot.Some?
    ensures LiveProposal(c, treasury, run, j, k, Before(c, treasury, run, k + 1).snapshotRoot.value)
    ensures run[j].time + 86_400 <= run[k].time
  {
    BeforeNext(c, treasury, run, k);
    j := ExecutedProposal(c, treasury, run, k);
  }

  lemma ExecutedProposal(c: Crypto, treasury: nat, run: Run, k: nat) returns (j: nat)
    requires k < |run| && run[k].call == ExecuteRootUpdate && Accepted(c, treasury, run, k)
    ensures Before(c, treasury, run, k + 1).snapshotRoot.Some?
    ensures LiveProposal(c, treasury, run, j, k, Before(c, treasury, run, k + 1).snapshotRoot.value)
    ensures run[j].time + DELAY <= run[k].time
  {
    BeforeNext(c, treasury, run, k);
    PendingIsLiveProposal(c, treasury, run, k);
    var w := Before(c, treasury, run, k);
    j :| LiveProposal(c, treasury, run, j, k, w.pendingRoot.value);
  }

  // ---------------------------------------------------------------------------
  // Payouts
  // ---------------------------------------------------------------------------

  datatype Payment = Payment(user: Address, amount: I128, leaf: Bytes32)

  function PaymentOf(c: Crypto, call: Call): Payment
    requires call.Claim?
  {
    Payment(call.user, call.amount, c.leaf(call.user, call.amount))
  }

  function Payments(c: Crypto, treasury: nat, run: Run): seq<Payment> {
    if run == [] then []
    else
      var init, last := run[..|run| - 1], run[|run| - 1];
      Payments(c, treasury, init)
      + if last.call.Claim? && Refusal(c, After(c, treasury, init), last).None?
        then [PaymentOf(c, last.call)]
        else []
  }

  function TotalPaid(payments: seq<Payment>): int {
    if payments == [] then 0
    else TotalPaid(payments[..|payments| - 1]) + payments[|payments| - 1].amount
  }

  function TotalDeposited(run: Run): nat {
    if run == [] then 0
    else
      var last := run[|run| - 1];
      TotalDeposited(run[..|run| - 1]) + if last.call.Deposit? then last.call.tokens else 0
  }

  function LeavesOf(payments: seq<Payment>): set<Bytes32> {
    set p | p in payments :: p.leaf
  }

  /** The payments `paid` account for `w`: of the `received` tokens, what is not held was paid;
      the used leaves are exactly the paid ones; no leaf is paid twice. */
  ghost predicate Accounts(c: Crypto, w: World, paid: seq<Payment>, received: nat) {
    && w.treasury + TotalPaid(paid) == received
    && w.usedProofs == LeavesOf(paid) && |w.usedProofs| == |paid|
    && (forall p | p in paid :: p.amount > 0 && p.leaf == c.leaf(p.user, p.amount))
    && Distinct(paid)
  }

  ghost predicate Distinct(paid: seq<Payment>) {
    forall m, n | 0 <= m < n < |paid| :: paid[m].leaf != paid[n].leaf
  }

  lemma AppendDistinct(paid: seq<Payment>, p: Payment)
    requires Distinct(paid) && p.leaf !in LeavesOf(paid)
    ensures Distinct(paid + [p])
  {
    forall m | 0 <= m < |paid| ensures paid[m].leaf != p.leaf {
      assert paid[m] in paid;
    }
  }

  lemma ClaimIsAccountedFor(c: Crypto, w: World, paid: seq<Payment>, received: nat, i: Invocation)
    requires i.call.Claim? && Refusal(c, w, i).None? && Accounts(c, w, paid, received)
    ensures Accounts(c, Step(c, w, i), paid + [PaymentOf(c, i.call)], received)
  {
    var p := PaymentOf(c, i.call);
    AppendPayment(paid, p);
    AppendDistinct(paid, p);
  }

  lemma OthersAreAccountedFor(c: Crypto, w: World, paid: seq<Payment>, received: nat, i: Invocation)
    requires !(i.call.Claim? && Refusal(c, w, i).None?) && Accounts(c, w, paid, received)
    ensures Accounts(c, Step(c, w, i), paid, received + if i.call.Deposit? then i.call.tokens else 0)
  {
    var v := Step(c, w, i);
    assert v.usedProofs == w.usedProofs;
    assert v.treasury == w.treasury + if i.call.Deposit? then i.call.tokens else 0;
  }

  /** Conservation over any run, whatever roots came and went. */
  lemma {:induction false} PayoutConservation(c: Crypto, treasury: nat, run: Run)
    ensures Accounts(c, After(c, treasury, run), Payments(c, treasury, run), treasury + TotalDeposited(run))
  {
    if run != [] {
      var init, last := run[..|run| - 1], run[|run| - 1];
      PayoutConservation(c, treasury, init);
      var w, paid := After(c, treasury, init), Payments(c, treasury, init);
      if last.call.Claim? && Refusal(c, w, last).None? {
        ClaimIsAccountedFor(c, w, paid, treasury + TotalDeposited(init), last);
      } else {
        OthersAreAccountedFor(c, w, paid, treasury + TotalDeposited(init), last);
        assert paid + [] == paid;
      }
    }
  }

  lemma AppendPayment(paid: seq<Payment>, p: Payment)
    ensures TotalPaid(paid + [p]) == TotalPaid(paid) + p.amount
    ensures LeavesOf(paid + [p]) == LeavesOf(paid) + {p.leaf}
  {
    assert (paid + [p])[..|paid|] == paid;
    assert forall q :: q in paid + [p] <==> q in paid || q == p;
  }

  lemma {:induction false} UsedOnlyGrows(c: Crypto, treasury: nat, run: Run, m: nat)
    requires m <= |run|
    ensures Before(c, treasury, run, m).usedProofs <= After(c, treasury, run).usedProofs
    decreases |run| - m
  {
    if m < |run| {
      BeforeNext(c, treasury, run, m);
      UsedOnlyGrows(c, treasury, run, m + 1);
    } else {
      assert run[..m] == run;
    }
  }

  /** A claim that was paid is refused for ever after, under every later root. */
  lemma PaidOnce(c: Crypto, treasury: nat, run: Run, m: nat, k: nat)
    requires m < k < |run| && run[m].call.Claim? && run[k].call.Claim?
    requires run[m].call.user == run[k].call.user && run[m].call.amount == run[k].call.amount
    requires Accepted(c, treasury, run, m)
    ensures Refusal(c, Before(c, treasury, run, k), run[k]) ==
            if run[k].call.user in run[k].signers then Some(ProofAlreadyUsed) else Some(MissingAuth)
  {
    var call := run[m].call;
    BeforeNext(c, treasury, run, m);
    assert run[..k][..m + 1] == run[..m + 1];
    UsedOnlyGrows(c, treasury, run[..k], m + 1);
    assert c.leaf(call.user, call.amount) in Before(c, treasury, run, k).usedProofs;
    EveryWorldIsConsistent(c, treasury, run[..k]);
  }

  // ---------------------------------------------------------------------------
  // Where a payment comes from
  // ---------------------------------------------------------------------------

  /** The current root was installed by invocation `i`, and no root has been installed since. */
  ghost predicate InstalledBy(c: Crypto, treasury: nat, run: Run, i: nat, k: nat, root: Bytes32)
    requires k <= |run|
  {
    && i < k && Accepted(c, treasury, run, i)
    && (forall m | i < m < k && Accepted(c, treasury, run, m) :: !run[m].call.ExecuteRootUpdate?)
    && ((run[i].call.Initialize? && run[i].call.initialRoot == root)
        || (run[i].call.ExecuteRootUpdate? && Before(c, treasury, run, i + 1).snapshotRoot == Some(root)))
  }

  lemma {:induction false} RootIsInstalled(c: Crypto, treasury: nat, run: Run, k: nat) returns (i: nat)
    requires k <= |run| && Before(c, treasury, run, k).snapshotRoot.Some?
    ensures InstalledBy(c, treasury, run, i, k, Before(c, treasury, run, k).snapshotRoot.value)
  {
    var p := k - 1;
    BeforeNext(c, treasury, run, p);
    EveryWorldIsConsistent(c, treasury, run[..p]);
    var call := run[p].call;
    if Accepted(c, treasury, run, p) && (call.Initialize? || call.ExecuteRootUpdate?) {
      i := p;
    } else {
      i := RootIsInstalled(c, treasury, run, p);
    }
  }

  /** The proof of a claim is told apart from everything else in the tree of the root in force. */
  ghost predicate ClaimApart(c: Crypto, call: Call, t: SortedMerkle.Tree)
    requires call.Claim?
  {
    var leaf := c.leaf(call.user, call.amount);
    && CollisionFreeOn(c.pair, SortedMerkle.TreePairs(c.pair, t) + SortedMerkle.FoldPairs(c.pair, leaf, call.proof))
    && SortedMerkle.Separated(c.pair, {leaf}, SortedMerkle.TreePairs(c.pair, t))
    && SortedMerkle.Separated(c.pair, SortedMerkle.Leaves(t), SortedMerkle.FoldPairs(c.pair, leaf, call.proof))
  }

  /** When a claim in a run succeeds, exactly: the user signs, the amount is positive, its leaf was
      not paid before, the proof is a path of that leaf in the tree of the root in force, and what
      was received and not yet paid out covers it. */
  lemma ClaimAcceptedExactly(c: Crypto, treasury: nat, run: Run, k: nat, t: SortedMerkle.Tree)
    requires k < |run| && run[k].call.Claim? && ClaimApart(c, run[k].call, t)
    requires Before(c, treasury, run, k).snapshotRoot == Some(SortedMerkle.RootHash(c.pair, t))
    ensures var call, paid := run[k].call, Payments(c, treasury, run[..k]);
            var leaf := c.leaf(call.user, call.amount);
            Accepted(c, treasury, run, k) <==>
            && call.user in run[k].signers && call.amount > 0 && leaf !in LeavesOf(paid)
            && SortedMerkle.IsPath(c.pair, t, leaf, call.proof)
            && call.amount <= treasury + TotalDeposited(run[..k]) - TotalPaid(paid)
  {
    hide After, Payments, TotalPaid, TotalDeposited, LeavesOf, Distinct, SortedMerkle.IsPath;
    var call := run[k].call;
    SortedMerkle.AcceptedExactly(c.pair, t, c.leaf(call.user, call.amount), call.proof);
    PayoutConservation(c, treasury, run[..k]);
    EveryWorldIsConsistent(c, treasury, run[..k]);
  }

  /** End to end: every payment is of a leaf of the tree that the root in force commits to, and
      that root is either the initial one or the live proposal of an execution that waited a day. */
  lemma EveryPaymentWasCommitted(c: Crypto, treasury: nat, run: Run, k: nat, t: SortedMerkle.Tree)
    returns (i: nat, j: nat)
    requires k < |run| && run[k].call.Claim? && Accepted(c, treasury, run, k)
    requires Before(c, treasury, run, k).snapshotRoot == Some(SortedMerkle.RootHash(c.pair, t))
    requires ClaimApart(c, run[k].call, t)
    ensures c.leaf(run[k].call.user, run[k].call.amount) in SortedMerkle.Leaves(t)
    ensures var root := SortedMerkle.RootHash(c.pair, t);
            && InstalledBy(c, treasury, run, i, k, root)
            && (run[i].call.Initialize?
                || (LiveProposal(c, treasury, run, j, i, root) && run[j].time + DELAY <= run[i].time))
  {
    var leaf, proof := c.leaf(run[k].call.user, run[k].call.amount), run[k].call.proof;
    SortedMerkle.AcceptedExactly(c.pair, t, leaf, proof);
    SortedMerkle.PathEndsInLeaf(c.pair, t, leaf, proof);
    i := RootIsInstalled(c, treasury, run, k);
    j := 0;
    if run[i].call.ExecuteRootUpdate? {
      j := ExecutedProposal(c, treasury, run, i);
    }
  }
}
