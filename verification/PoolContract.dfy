/** The pool contract as it runs: loops over nullifiers and public inputs, storage updated in place, and the
    host's rollback when a call does not end in success. */
module PoolContract {
  import opened Bits
  import opened Bn254
  import opened Amounts
  import opened HostCalls
  import opened Merkle
  import opened Pool
  import PoolTree

  method AnySpent(nullifiers: map<U256, bool>, ns: seq<U256>) returns (found: bool)
    ensures found <==> exists n :: n in ns && IsSpent(nullifiers, n)
  {
    for i := 0 to |ns|
      invariant forall j :: 0 <= j < i ==> !IsSpent(nullifiers, ns[j])
    {
      if IsSpent(nullifiers, ns[i]) { return true; }
    }
    return false;
  }

  /** Mark the nullifiers one by one; marking one twice changes nothing. */
  method MarkSpent(nullifiers0: map<U256, bool>, ns: seq<U256>) returns (nullifiers: map<U256, bool>)
    ensures nullifiers == MarkAll(nullifiers0, ns)
  {
    nullifiers := nullifiers0;
    for i := 0 to |ns|
      invariant forall n :: n in nullifiers <==> n in nullifiers0 || n in ns[..i]
      invariant forall n :: n in nullifiers ==> nullifiers[n] == (n in ns[..i] || nullifiers0[n])
    {
      nullifiers := nullifiers[ns[i] := true];
      assert ns[..i + 1] == ns[..i] + [ns[i]];
    }
    assert ns[..|ns|] == ns;
  }

  method ValidatePublicInputs(p: Proof) returns (ok: bool)
    ensures ok <==>
      && p.root < P && p.publicAmount < P && (forall n :: n in p.inputNullifiers ==> n < P)
      && p.outputCommitment0 < P && p.outputCommitment1 < P
      && p.aspMembershipRoot < P && p.aspNonMembershipRoot < P
    ensures ok <==> Canonical(p)
  {
    if p.root >= P || p.publicAmount >= P { return false; }
    for i := 0 to |p.inputNullifiers|
      invariant forall j :: 0 <= j < i ==> p.inputNullifiers[j] < P
    {
      assert p.inputNullifiers[i] in p.inputNullifiers;
      if p.inputNullifiers[i] >= P { return false; }
    }
    return p.outputCommitment0 < P && p.outputCommitment1 < P
           && p.aspMembershipRoot < P && p.aspNonMembershipRoot < P;
  }

  /** Push the public inputs in the circuit's order. */
  method BuildPublicInputs(p: Proof) returns (v: seq<Fe>)
    requires Canonical(p) && p.extDataHash < P
    ensures v == PublicInputs(p)
  {
    var n := |p.inputNullifiers|;
    v := [p.root, p.publicAmount, p.extDataHash];
    for i := 0 to n
      invariant v == [p.root, p.publicAmount, p.extDataHash] + Elements(p.inputNullifiers)[..i]
    {
      v := v + [Element(p.inputNullifiers[i])];
    }
    ghost var before := [p.root, p.publicAmount, p.extDataHash] + Elements(p.inputNullifiers)
                        + [p.outputCommitment0, p.outputCommitment1];
    v := v + [p.outputCommitment0, p.outputCommitment1];
    for i := 0 to n
      invariant v == before + seq(i, _ => p.aspMembershipRoot)
    {
      v := v + [p.aspMembershipRoot];
    }
    for i := 0 to n
      invariant v == before + seq(n, _ => p.aspMembershipRoot) + seq(i, _ => p.aspNonMembershipRoot)
    {
      v := v + [p.aspNonMembershipRoot];
    }
  }

  method RunVerifier(host: Host, p: Proof) returns (r: Result)
    requires p.extDataHash < P
    ensures r == VerifyProof(host, p)
  {
    if p.proof.IsEmpty() { return Failed(InvalidProof); }
    var ok := ValidatePublicInputs(p);
    if !ok { return Failed(NonCanonicalPublicInput); }
    var inputs := BuildPublicInputs(p);
    match host.verify(p.proof, inputs)
    case Accepts => return Done(());
    case Rejects => return Failed(InvalidProof);
    case Traps => return Panicked;
  }

  class Contract {
    const address: Address
    const tree: PoolTree.MerkleTreeWithHistory
    var nullifiers: map<U256, bool>
    var ledger: Ledger
    var commitments: seq<NewCommitment>
    var spent: seq<U256>

    ghost predicate Valid()
      reads this, tree
    {
      tree.Valid() && tree.initialized && Ok(Cfg(), State())
    }

    ghost function Cfg(): Config
      reads tree
      requires tree.Valid()
    {
      Config(tree.h, tree.zeroes[0], tree.levels, address)
    }

    ghost function State(): State
      reads this, tree
    {
      Pool.State(tree.leaves, nullifiers, ledger, commitments, spent)
    }

    constructor (address: Address, tree: PoolTree.MerkleTreeWithHistory, ledger: Ledger)
      requires tree.Valid() && tree.initialized && tree.leaves == []
      ensures Valid() && this.tree == tree && this.address == address
      ensures State() == Pool.State([], map[], ledger, [], [])
    {
      this.address, this.tree, this.ledger := address, tree, ledger;
      nullifiers, commitments, spent := map[], [], [];
    }

    method Check(tx: Tx) returns (r: Result)
      requires Valid()
      ensures r == Validate(Cfg(), State(), tx)
    {
      var p := tx.proof;
      var known := tree.IsKnownRoot(p.root);
      if !known.value { return Failed(UnknownRoot); }
      var spentBefore := AnySpent(nullifiers, p.inputNullifiers);
      if spentBefore { return Failed(AlreadySpentNullifier); }
      if tx.host.keccak(tx.ext) % P != p.extDataHash { return Failed(WrongExtHash); }
      var amount := CalculatePublicAmount(tx.ext.extAmount);
      if amount == NegationOverflow { return Panicked; }
      if amount == TooLarge || p.publicAmount != amount.value { return Failed(WrongExtAmount); }
      if tx.host.membershipRoot.None? { return Panicked; }
      if tx.host.nonMembershipRoot.None? { return Panicked; }
      if tx.host.membershipRoot.value != p.aspMembershipRoot
         || tx.host.nonMembershipRoot.value != p.aspNonMembershipRoot {
        return Failed(InvalidProof);
      }
      r := RunVerifier(tx.host, p);
    }

    /** On success the new state is the one specified; on failure the tree is untouched and the caller's host
        restores the rest. */
    method InternalTransact(tx: Tx) returns (r: Result)
      requires Valid()
      modifies this, tree
      ensures tree.Valid() && tree.initialized && Cfg() == old(Cfg())
      ensures r == Internal(old(Cfg()), old(State()), tx).1
      ensures r.Done? ==> State() == Internal(old(Cfg()), old(State()), tx).0
      ensures !r.Done? ==> tree.leaves == old(tree.leaves)
    {
      r := Check(tx);
      if r.Done? {
        InternalCases(Cfg(), State(), tx);
        r := Settle(tx);
      }
    }

    /** Spend the nullifiers, pay out, append the commitments. */
    method Settle(tx: Tx) returns (r: Result)
      requires Valid() && Canonical(tx.proof) && InBounds(tx.ext.extAmount)
      modifies this, tree
      ensures tree.Valid() && tree.initialized && Cfg() == old(Cfg())
      ensures var paid := Pay(old(ledger), address, tx.ext.recipient, -tx.ext.extAmount);
              if !paid.Done? then r == paid.Propagate()
              else if |old(tree.leaves)| == Pow2(tree.levels) then r == Failed(MerkleTreeFull)
              else r == Done(()) && State() == Commit(old(State()), tx, paid.value)
      ensures !r.Done? ==> tree.leaves == old(tree.leaves)
    {
      var x := tx.ext.extAmount;
      nullifiers := MarkSpent(nullifiers, tx.proof.inputNullifiers);
      spent := spent + tx.proof.inputNullifiers;
      if x < 0 {
        var paid := Pay(ledger, address, tx.ext.recipient, -x);
        if !paid.Done? { return paid.Propagate(); }
        ledger := paid.value;
      }
      r := Append(tx);
    }

    /** Append the output commitments and report where they landed. */
    method Append(tx: Tx) returns (r: Result)
      requires tree.Valid() && tree.initialized
      requires tx.proof.outputCommitment0 < P && tx.proof.outputCommitment1 < P
      modifies this`commitments, tree
      ensures tree.Valid() && tree.initialized && Cfg() == old(Cfg())
      ensures r == if |old(tree.leaves)| == Pow2(tree.levels) then Failed(MerkleTreeFull) else Done(())
      ensures tree.leaves == old(tree.leaves)
                + if r.Done? then [tx.proof.outputCommitment0, tx.proof.outputCommitment1] else []
      ensures r.Done? ==>
        var n := |old(tree.leaves)|;
        commitments == old(commitments)
          + [NewCommitment(tx.proof.outputCommitment0, n, tx.ext.encryptedOutput0),
             NewCommitment(tx.proof.outputCommitment1, n + 1, tx.ext.encryptedOutput1)]
    {
      var p := tx.proof;
      var inserted := tree.InsertTwoLeaves(p.outputCommitment0, p.outputCommitment1);
      if !inserted.Done? { return Failed(MerkleTreeFull); }
      commitments := commitments
        + [NewCommitment(p.outputCommitment0, inserted.value.0, tx.ext.encryptedOutput0),
           NewCommitment(p.outputCommitment1, inserted.value.1, tx.ext.encryptedOutput1)];
      return Done(());
    }

    method Transact(tx: Tx) returns (r: Result)
      requires Valid()
      modifies this, tree
      ensures Valid() && Cfg() == old(Cfg())
      ensures (State(), r) == Pool.Transact(old(Cfg()), old(State()), tx)
    {
      if !tx.host.senderAuthorized { return Panicked; }
      var saved := (nullifiers, ledger, commitments, spent);
      if tx.ext.extAmount > 0 {
        var deposited := Pay(ledger, tx.sender, address, tx.ext.extAmount);
        if !deposited.Done? { return deposited.Propagate(); }
        ledger := deposited.value;
      }
      r := InternalTransact(tx);
      if !r.Done? {
        nullifiers, ledger, commitments, spent := saved.0, saved.1, saved.2, saved.3;
      }
    }
  }

  /** Deployment: initialize the tree, which fails unless there are 1 to 32 levels. */
  method Deploy(address: Address, h: Hash<Fe>, zeroes: seq<Fe>, levels: nat, ledger: Ledger)
    returns (r: Outcome<Contract, PoolTree.Error>)
    requires ZeroTable(h, zeroes)
    ensures r.Done? <==> 1 <= levels <= 32
    ensures !r.Done? ==> r == Failed(PoolTree.WrongLevels)
    ensures r.Done? ==>
      && r.value.Valid() && r.value.Cfg() == Config(h, zeroes[0], levels, address)
      && r.value.State() == Pool.State([], map[], ledger, [], [])
  {
    var tree := new PoolTree.MerkleTreeWithHistory(h, zeroes);
    var initialized := tree.Init(levels);
    if !initialized.Done? { return initialized.Propagate(); }
    var c := new Contract(address, tree, ledger);
    return Done(c);
  }
}
