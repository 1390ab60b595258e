/** The pool's transaction step as a function on values, and what it keeps over whole runs. */
module Pool {
  import opened Bits
  import opened Bn254
  import opened Amounts
  import opened HostCalls
  import opened Merkle
  import PoolTree

  type Address = nat
  type Bytes = seq<bv8>

  datatype Error =
    | MerkleTreeFull | WrongExtAmount | InvalidProof | UnknownRoot | AlreadySpentNullifier | WrongExtHash
    | NonCanonicalPublicInput

  type Result = Outcome<(), Error>

  datatype Groth16Proof = Groth16Proof(a: Bytes, b: Bytes, c: Bytes) {
    predicate IsEmpty() {
      a == [] || b == [] || c == []
    }
  }

  datatype Proof = Proof(
    proof: Groth16Proof, root: U256, inputNullifiers: seq<U256>, outputCommitment0: U256, outputCommitment1: U256,
    publicAmount: U256, extDataHash: U256, aspMembershipRoot: U256, aspNonMembershipRoot: U256)

  datatype ExtData = ExtData(recipient: Address, extAmount: I256, encryptedOutput0: Bytes, encryptedOutput1: Bytes)

  datatype Verdict = Accepts | Rejects | Traps

  /** What the host and the other contracts answer during one call; a call for a policy root may trap. */
  datatype Host = Host(
    senderAuthorized: bool, keccak: ExtData -> U256, verify: (Groth16Proof, seq<Fe>) -> Verdict,
    membershipRoot: Option<U256>, nonMembershipRoot: Option<U256>)

  datatype Tx = Tx(proof: Proof, ext: ExtData, sender: Address, host: Host)

  datatype NewCommitment = NewCommitment(commitment: Fe, index: nat, encryptedOutput: Bytes)

  type Ledger = map<Address, nat>

  datatype Config = Config(h: Hash<Fe>, zero: Fe, levels: nat, address: Address)

  datatype State = State(
    leaves: seq<Fe>, nullifiers: map<U256, bool>, ledger: Ledger,
    commitments: seq<NewCommitment>, spent: seq<U256>)

  /** The tree has room for what it holds, and each commitment event names its leaf and that leaf's index. */
  ghost predicate Ok(cfg: Config, s: State) {
    && |s.leaves| % 2 == 0 && |s.leaves| <= Pow2(cfg.levels) && cfg.levels >= 1
    && |s.commitments| == |s.leaves|
    && forall i :: 0 <= i < |s.leaves| ==> s.commitments[i].commitment == s.leaves[i] && s.commitments[i].index == i
  }

  // ---------------------------------------------------------------- token, nullifiers, public inputs

  function Balance(l: Ledger, a: Address): nat {
    if a in l then l[a] else 0
  }

  /** What a transfer adds to account `a`. */
  function Flow(from: Address, to: Address, amount: int, a: Address): int {
    (if a == to then amount else 0) - (if a == from then amount else 0)
  }

  /** A token transfer; it traps on insufficient funds and on overflow of the receiver's balance. */
  function Transfer(l: Ledger, from: Address, to: Address, amount: nat): (r: Option<Ledger>)
    ensures r.Some? ==> forall a :: Balance(r.value, a) == Balance(l, a) + Flow(from, to, amount, a)
  {
    if Balance(l, from) < amount then None
    else
      var l1 := l[from := Balance(l, from) - amount];
      if Balance(l1, to) + amount > I128_MAX then None
      else Some(l1[to := Balance(l1, to) + amount])
  }

  function IsSpent(nullifiers: map<U256, bool>, n: U256): bool {
    n in nullifiers && nullifiers[n]
  }

  ghost function MarkAll(nullifiers: map<U256, bool>, ns: seq<U256>): map<U256, bool> {
    map n | n in nullifiers.Keys + (set n | n in ns) :: n in ns || nullifiers[n]
  }

  predicate Canonical(p: Proof) {
    && p.root < P && p.publicAmount < P && (forall n :: n in p.inputNullifiers ==> n < P)
    && p.outputCommitment0 < P && p.outputCommitment1 < P
    && p.aspMembershipRoot < P && p.aspNonMembershipRoot < P
  }

  /** The verifier's input vector, in the order the circuit declares. */
  function PublicInputs(p: Proof): (v: seq<Fe>)
    requires Canonical(p) && p.extDataHash < P
    ensures |v| == 5 + 3 * |p.inputNullifiers|
    ensures v[0] == p.root && v[1] == p.publicAmount && v[2] == p.extDataHash
    ensures forall i :: 0 <= i < |p.inputNullifiers| ==> v[3 + i] == p.inputNullifiers[i]
    ensures var n := |p.inputNullifiers|; v[3 + n] == p.outputCommitment0 && v[4 + n] == p.outputCommitment1
    ensures var n := |p.inputNullifiers|;
            forall i :: 5 + n <= i < 5 + 3 * n ==>
              v[i] == if i < 5 + 2 * n then p.aspMembershipRoot else p.aspNonMembershipRoot
  {
    var n := |p.inputNullifiers|;
    [p.root, p.publicAmount, p.extDataHash] + Elements(p.inputNullifiers)
    + [p.outputCommitment0, p.outputCommitment1]
    + seq(n, _ => p.aspMembershipRoot) + seq(n, _ => p.aspNonMembershipRoot)
  }

  function Element(x: U256): Fe
    requires x < P
  {
    x
  }

  function Elements(ns: seq<U256>): (v: seq<Fe>)
    requires forall n :: n in ns ==> n < P
    ensures |v| == |ns| && forall i :: 0 <= i < |v| ==> v[i] == ns[i]
  {
    seq(|ns|, i requires 0 <= i < |ns| => assert ns[i] in ns; Element(ns[i]))
  }

  /** The public fields that the vector shows: the policy roots are repeated once per input, so only an input shows
      them. */
  predicate SamePublic(p: Proof, q: Proof) {
    && p.root == q.root && p.publicAmount == q.publicAmount && p.extDataHash == q.extDataHash
    && p.inputNullifiers == q.inputNullifiers
    && p.outputCommitment0 == q.outputCommitment0 && p.outputCommitment1 == q.outputCommitment1
    && (p.inputNullifiers != [] ==>
          p.aspMembershipRoot == q.aspMembershipRoot && p.aspNonMembershipRoot == q.aspNonMembershipRoot)
  }

  /** Two proofs give the verifier the same vector exactly if they agree in every public field, the policy roots
      excepted when there is no input. */
  lemma PublicInputsBind(p: Proof, q: Proof)
    requires Canonical(p) && p.extDataHash < P && Canonical(q) && q.extDataHash < P
    ensures PublicInputs(p) == PublicInputs(q) <==> SamePublic(p, q)
  {
    if PublicInputs(p) == PublicInputs(q) { VectorShows(p, q); }
  }

  lemma VectorShows(p: Proof, q: Proof)
    requires Canonical(p) && p.extDataHash < P && Canonical(q) && q.extDataHash < P
    requires PublicInputs(p) == PublicInputs(q)
    ensures SamePublic(p, q)
  {
    var u, v, n := PublicInputs(p), PublicInputs(q), |p.inputNullifiers|;
    assert u[0] == v[0] && u[1] == v[1] && u[2] == v[2];
    forall i | 0 <= i < n ensures p.inputNullifiers[i] == q.inputNullifiers[i] {
      assert u[3 + i] == v[3 + i];
    }
    assert u[3 + n] == v[3 + n] && u[4 + n] == v[4 + n];
    if n > 0 {
      assert u[5 + n] == v[5 + n] && u[5 + 2 * n] == v[5 + 2 * n];
    }
  }

  /** Without inputs the policy roots are not bound: these two proofs differ in both and give the same vector. */
  lemma PolicyRootsUnbound() returns (p: Proof, q: Proof)
    ensures Canonical(p) && Canonical(q) && p.extDataHash == q.extDataHash == 0
    ensures p.inputNullifiers == q.inputNullifiers == []
    ensures p.aspMembershipRoot != q.aspMembershipRoot && p.aspNonMembershipRoot != q.aspNonMembershipRoot
    ensures PublicInputs(p) == PublicInputs(q)
  {
    var bytes: Bytes := [0];
    p := Proof(Groth16Proof(bytes, bytes, bytes), 1, [], 0, 0, 0, 0, 2, 3);
    q := p.(aspMembershipRoot := 4, aspNonMembershipRoot := 5);
    PublicInputsBind(p, q);
  }

  // ---------------------------------------------------------------- one transaction

  function VerifyProof(host: Host, p: Proof): Result
    requires p.extDataHash < P
  {
    if p.proof.IsEmpty() then Failed(InvalidProof)
    else if !Canonical(p) then Failed(NonCanonicalPublicInput)
    else match host.verify(p.proof, PublicInputs(p))
      case Accepts => Done(())
      case Rejects => Failed(InvalidProof)
      case Traps => Panicked
  }

  /** The validation steps, in order. */
  ghost function Validate(cfg: Config, s: State, tx: Tx): Result
    requires Ok(cfg, s)
  {
    var p, amount := tx.proof, CalculatePublicAmount(tx.ext.extAmount);
    if p.root == 0 || !PoolTree.RecentRoot(p.root, cfg.h, cfg.zero, cfg.levels, s.leaves, |s.leaves| / 2)
    then Failed(UnknownRoot)
    else if exists n :: n in p.inputNullifiers && IsSpent(s.nullifiers, n) then Failed(AlreadySpentNullifier)
    else if tx.host.keccak(tx.ext) % P != p.extDataHash then Failed(WrongExtHash)
    else if amount == NegationOverflow then Panicked
    else if amount == TooLarge || p.publicAmount != amount.value then Failed(WrongExtAmount)
    else if tx.host.membershipRoot.None? || tx.host.nonMembershipRoot.None? then Panicked
    else if tx.host.membershipRoot.value != p.aspMembershipRoot
         || tx.host.nonMembershipRoot.value != p.aspNonMembershipRoot
    then Failed(InvalidProof)
    else VerifyProof(tx.host, p)
  }

  /** Move `amount` if it is positive; amounts beyond `i128` are refused. */
  function Pay(l: Ledger, from: Address, to: Address, amount: int): Outcome<Ledger, Error> {
    if amount <= 0 then Done(l)
    else if amount > I128_MAX then Failed(WrongExtAmount)
    else match Transfer(l, from, to, amount)
      case None => Panicked
      case Some(l') => Done(l')
  }

  /** What is published for the output pair appended from index n on. */
  ghost function NewCommitments(n: nat, tx: Tx): seq<NewCommitment>
    requires tx.proof.outputCommitment0 < P && tx.proof.outputCommitment1 < P
  {
    [NewCommitment(tx.proof.outputCommitment0, n, tx.ext.encryptedOutput0),
     NewCommitment(tx.proof.outputCommitment1, n + 1, tx.ext.encryptedOutput1)]
  }

  /** The state after a transaction that passed every check. */
  ghost function Commit(s: State, tx: Tx, ledger: Ledger): State
    requires tx.proof.outputCommitment0 < P && tx.proof.outputCommitment1 < P
  {
    var p, n := tx.proof, |s.leaves|;
    State(
      s.leaves + [p.outputCommitment0, p.outputCommitment1],
      MarkAll(s.nullifiers, p.inputNullifiers),
      ledger,
      s.commitments + NewCommitments(n, tx),
      s.spent + p.inputNullifiers)
  }

  lemma ValidatedIsCanonical(cfg: Config, s: State, tx: Tx)
    requires Ok(cfg, s) && Validate(cfg, s, tx).Done?
    ensures Canonical(tx.proof) && tx.proof.extDataHash < P && InBounds(tx.ext.extAmount)
    ensures tx.host.verify(tx.proof.proof, PublicInputs(tx.proof)) == Accepts
  {
  }

  /** Validate, spend, withdraw, append. */
  ghost function Internal(cfg: Config, s: State, tx: Tx): (r: (State, Result))
    requires Ok(cfg, s)
    ensures Ok(cfg, r.0)
    ensures !r.1.Done? ==> r.0 == s
  {
    var v := Validate(cfg, s, tx);
    if !v.Done? then (s, v)
    else
      var paid := Pay(s.ledger, cfg.address, tx.ext.recipient, -tx.ext.extAmount);
      if !paid.Done? then (s, paid.Propagate())
      else if |s.leaves| == Pow2(cfg.levels) then (s, Failed(MerkleTreeFull))
      else
        assert Pow2(cfg.levels) == 2 * Pow2(cfg.levels - 1);
        ValidatedIsCanonical(cfg, s, tx);
        (Commit(s, tx, paid.value), Done(()))
  }

  lemma InternalCases(cfg: Config, s: State, tx: Tx)
    requires Ok(cfg, s) && Validate(cfg, s, tx).Done?
    ensures Canonical(tx.proof) && InBounds(tx.ext.extAmount)
    ensures Internal(cfg, s, tx)
         == var paid := Pay(s.ledger, cfg.address, tx.ext.recipient, -tx.ext.extAmount);
            if !paid.Done? then (s, paid.Propagate())
            else if |s.leaves| == Pow2(cfg.levels) then (s, Failed(MerkleTreeFull))
            else (Commit(s, tx, paid.value), Done(()))
  {
    ValidatedIsCanonical(cfg, s, tx);
  }

  /** Deposit, then the rest; whatever fails leaves the state as it was. */
  ghost function Transact(cfg: Config, s: State, tx: Tx): (r: (State, Result))
    requires Ok(cfg, s)
    ensures Ok(cfg, r.0)
    ensures !r.1.Done? ==> r.0 == s
  {
    if !tx.host.senderAuthorized then (s, Panicked)
    else
      var deposited := Pay(s.ledger, tx.sender, cfg.address, tx.ext.extAmount);
      if !deposited.Done? then (s, deposited.Propagate())
      else
        var r := Internal(cfg, s.(ledger := deposited.value), tx);
        (if r.1.Done? then r.0 else s, r.1)
  }

  /** What acceptance means and what an accepted transaction does. */
  lemma AcceptedSteps(cfg: Config, s: State, tx: Tx)
    requires Ok(cfg, s) && Transact(cfg, s, tx).1.Done?
    ensures Validate(cfg, s, tx).Done? && Canonical(tx.proof) && |s.leaves| < Pow2(cfg.levels)
    ensures Transact(cfg, s, tx).0 == Commit(s, tx, Transact(cfg, s, tx).0.ledger)
  {
    var deposited := s.(ledger := Pay(s.ledger, tx.sender, cfg.address, tx.ext.extAmount).value);
    assert Validate(cfg, deposited, tx) == Validate(cfg, s, tx);
    ValidatedIsCanonical(cfg, s, tx);
  }

  /** What a transaction must satisfy besides its proof, in whatever order it is checked. */
  ghost predicate Checked(cfg: Config, s: State, tx: Tx)
    requires Ok(cfg, s)
  {
    var p, x := tx.proof, tx.ext.extAmount;
    && tx.host.senderAuthorized && |s.leaves| < Pow2(cfg.levels)
    && p.root != 0 && PoolTree.RecentRoot(p.root, cfg.h, cfg.zero, cfg.levels, s.leaves, |s.leaves| / 2)
    && (forall n :: n in p.inputNullifiers ==> !IsSpent(s.nullifiers, n))
    && p.extDataHash == tx.host.keccak(tx.ext) % P
    && InBounds(x) && Canonical(p) && CentredLift(p.publicAmount) == x
    && tx.host.membershipRoot == Some(p.aspMembershipRoot)
    && tx.host.nonMembershipRoot == Some(p.aspNonMembershipRoot)
    && !p.proof.IsEmpty()
    && Payable(s.ledger, tx.sender, cfg.address, x) && Payable(s.ledger, cfg.address, tx.ext.recipient, -x)
  }

  /** All checks hold and the verifier accepts the proof for the public inputs. */
  ghost predicate Acceptable(cfg: Config, s: State, tx: Tx)
    requires Ok(cfg, s)
  {
    Checked(cfg, s, tx) && ProofAccepted(tx)
  }

  predicate ProofAccepted(tx: Tx)
    requires Canonical(tx.proof) && tx.proof.extDataHash < P
  {
    tx.host.verify(tx.proof.proof, PublicInputs(tx.proof)) == Accepts
  }

  /** A payment of `amount`, if positive, goes through. */
  predicate Payable(l: Ledger, from: Address, to: Address, amount: int) {
    amount <= 0 || (amount <= I128_MAX && Transfer(l, from, to, amount).Some?)
  }

  lemma AcceptedExactly(cfg: Config, s: State, tx: Tx)
    requires Ok(cfg, s)
    ensures Transact(cfg, s, tx).1.Done? <==> Acceptable(cfg, s, tx)
  {
    var x := tx.ext.extAmount;
    var paid := Pay(s.ledger, tx.sender, cfg.address, x);
    assert paid.Done? <==> Payable(s.ledger, tx.sender, cfg.address, x);
    if paid.Done? {
      var s' := s.(ledger := paid.value);
      assert Validate(cfg, s', tx) == Validate(cfg, s, tx);
      ValidExactly(cfg, s, tx);
      assert x <= 0 ==> s' == s;
    }
  }

  lemma ValidExactly(cfg: Config, s: State, tx: Tx)
    requires Ok(cfg, s)
    ensures Validate(cfg, s, tx).Done? <==>
      var p, x := tx.proof, tx.ext.extAmount;
      && p.root != 0 && PoolTree.RecentRoot(p.root, cfg.h, cfg.zero, cfg.levels, s.leaves, |s.leaves| / 2)
      && (forall n :: n in p.inputNullifiers ==> !IsSpent(s.nullifiers, n))
      && p.extDataHash == tx.host.keccak(tx.ext) % P
      && InBounds(x) && Canonical(p) && CentredLift(p.publicAmount) == x
      && tx.host.membershipRoot == Some(p.aspMembershipRoot)
      && tx.host.nonMembershipRoot == Some(p.aspNonMembershipRoot)
      && !p.proof.IsEmpty() && tx.host.verify(p.proof, PublicInputs(p)) == Accepts
  {
  }

  // ---------------------------------------------------------------- whole runs

  /** The state after the calls `txs`, successful or not. */
  ghost function Run(cfg: Config, s: State, txs: seq<Tx>): (r: State)
    requires Ok(cfg, s)
    ensures Ok(cfg, r)
    decreases |txs|
  {
    if txs == [] then s else Transact(cfg, Run(cfg, s, txs[..|txs| - 1]), txs[|txs| - 1]).0
  }

  /** Call number `i` of the run succeeds. */
  ghost predicate Accepted(cfg: Config, s: State, txs: seq<Tx>, i: nat)
    requires Ok(cfg, s) && i < |txs|
  {
    Transact(cfg, Run(cfg, s, txs[..i]), txs[i]).1.Done?
  }

  lemma {:induction false} SpentStaysSpent(cfg: Config, s: State, txs: seq<Tx>, i: nat, n: U256)
    requires Ok(cfg, s) && i <= |txs| && IsSpent(Run(cfg, s, txs[..i]).nullifiers, n)
    ensures IsSpent(Run(cfg, s, txs).nullifiers, n)
    decreases |txs|
  {
    if i == |txs| {
      assert txs[..i] == txs;
    } else {
      var before := txs[..|txs| - 1];
      assert before[..i] == txs[..i];
      SpentStaysSpent(cfg, s, before, i, n);
    }
  }

  lemma AcceptedMarksSpent(cfg: Config, s: State, tx: Tx, n: U256)
    requires Ok(cfg, s) && Transact(cfg, s, tx).1.Done? && n in tx.proof.inputNullifiers
    ensures IsSpent(Transact(cfg, s, tx).0.nullifiers, n) && !IsSpent(s.nullifiers, n) && n < P
  {
    AcceptedSteps(cfg, s, tx);
  }

  /** Every nullifier of an accepted transaction is recorded as spent for the rest of the run. */
  lemma AcceptedNullifiersRecorded(cfg: Config, s: State, txs: seq<Tx>, i: nat, n: U256)
    requires Ok(cfg, s) && i < |txs| && Accepted(cfg, s, txs, i) && n in txs[i].proof.inputNullifiers
    ensures IsSpent(Run(cfg, s, txs).nullifiers, n)
  {
    AcceptedMarksSpent(cfg, Run(cfg, s, txs[..i]), txs[i], n);
    assert txs[..i + 1][..i] == txs[..i];
    SpentStaysSpent(cfg, s, txs, i + 1, n);
  }

  lemma AcceptedWereUnspent(cfg: Config, s: State, txs: seq<Tx>, j: nat, n: U256)
    requires Ok(cfg, s) && j < |txs| && Accepted(cfg, s, txs, j) && n in txs[j].proof.inputNullifiers
    ensures !IsSpent(Run(cfg, s, txs[..j]).nullifiers, n) && n < P
  {
    AcceptedMarksSpent(cfg, Run(cfg, s, txs[..j]), txs[j], n);
  }

  lemma DifferModP(n: nat, n': nat)
    requires n < P && n' < P && n != n'
    ensures n % P != n' % P
  {
  }

  /** Nothing else is ever recorded: a nullifier is spent exactly if it was at the start or some accepted
      transaction used it. */
  lemma SpentExactly(cfg: Config, s: State, txs: seq<Tx>, n: U256)
    requires Ok(cfg, s)
    ensures IsSpent(Run(cfg, s, txs).nullifiers, n) <==>
      || IsSpent(s.nullifiers, n)
      || exists i :: 0 <= i < |txs| && Accepted(cfg, s, txs, i) && n in txs[i].proof.inputNullifiers
  {
    forall i | 0 <= i < |txs| && Accepted(cfg, s, txs, i) && n in txs[i].proof.inputNullifiers
      ensures IsSpent(Run(cfg, s, txs).nullifiers, n)
    {
      AcceptedNullifiersRecorded(cfg, s, txs, i, n);
    }
    if IsSpent(s.nullifiers, n) {
      assert txs[..0] == [];
      SpentStaysSpent(cfg, s, txs, 0, n);
    } else if IsSpent(Run(cfg, s, txs).nullifiers, n) {
      var _ := Spender(cfg, s, txs, n);
    }
  }

  /** The accepted transaction that recorded a nullifier. */
  lemma {:induction false} Spender(cfg: Config, s: State, txs: seq<Tx>, n: U256) returns (i: nat)
    requires Ok(cfg, s) && !IsSpent(s.nullifiers, n) && IsSpent(Run(cfg, s, txs).nullifiers, n)
    ensures i < |txs| && Accepted(cfg, s, txs, i) && n in txs[i].proof.inputNullifiers
    decreases |txs|
  {
    i := |txs| - 1;
    var before := txs[..i];
    if IsSpent(Run(cfg, s, before).nullifiers, n) {
      i := Spender(cfg, s, before, n);
      assert before[..i] == txs[..i];
    } else {
      NewlySpent(cfg, Run(cfg, s, before), txs[i], n);
    }
  }

  lemma NewlySpent(cfg: Config, s: State, tx: Tx, n: U256)
    requires Ok(cfg, s) && !IsSpent(s.nullifiers, n) && IsSpent(Transact(cfg, s, tx).0.nullifiers, n)
    ensures Transact(cfg, s, tx).1.Done? && n in tx.proof.inputNullifiers
  {
    if Transact(cfg, s, tx).1.Done? { AcceptedSteps(cfg, s, tx); }
  }

  /** Two accepted transactions never share a nullifier, not even up to the field's modulus. */
  lemma NoDoubleSpend(cfg: Config, s: State, txs: seq<Tx>, i: nat, j: nat, n: U256, n': U256)
    requires Ok(cfg, s) && i < j < |txs| && Accepted(cfg, s, txs, i) && Accepted(cfg, s, txs, j)
    requires n in txs[i].proof.inputNullifiers && n' in txs[j].proof.inputNullifiers
    ensures n % P != n' % P
  {
    AcceptedWereUnspent(cfg, s, txs, i, n);
    AcceptedWereUnspent(cfg, s, txs, j, n');
    assert IsSpent(Run(cfg, s, txs[..j]).nullifiers, n) by {
      assert txs[..j][..i] == txs[..i] && txs[..j][i] == txs[i];
      AcceptedNullifiersRecorded(cfg, s, txs[..j], i, n);
    }
    DifferModP(n, n');
  }

  ghost predicate Distinct(ns: seq<U256>) {
    forall i, j :: 0 <= i < j < |ns| ==> ns[i] != ns[j]
  }

  lemma DistinctAppend(ns: seq<U256>, more: seq<U256>)
    requires forall n :: n in more ==> n !in ns
    ensures Distinct(ns + more) <==> Distinct(ns) && Distinct(more)
  {
    var all := ns + more;
    if Distinct(all) {
      assert forall i :: 0 <= i < |ns| ==> ns[i] == all[i];
      assert forall i :: 0 <= i < |more| ==> more[i] == all[|ns| + i];
    }
    if Distinct(ns) && Distinct(more) {
      forall i, j | 0 <= i < j < |all| ensures all[i] != all[j] {
        if i < |ns| <= j { assert all[j] in more; }
      }
    }
  }

  /** The nullifiers published so far are the ones recorded as spent. */
  ghost predicate LogExact(s: State) {
    forall n :: n in s.spent <==> IsSpent(s.nullifiers, n)
  }

  lemma {:induction false} LogStaysExact(cfg: Config, s: State, txs: seq<Tx>)
    requires Ok(cfg, s) && LogExact(s)
    ensures LogExact(Run(cfg, s, txs))
    decreases |txs|
  {
    if txs != [] {
      var n := |txs| - 1;
      LogStaysExact(cfg, s, txs[..n]);
      if Accepted(cfg, s, txs, n) { AcceptedSteps(cfg, Run(cfg, s, txs[..n]), txs[n]); }
    }
  }

  /** Call number `i`, if it succeeds, spends nullifiers that differ among themselves. */
  ghost predicate DistinctAt(cfg: Config, s: State, txs: seq<Tx>, i: nat)
    requires Ok(cfg, s) && i < |txs|
  {
    Accepted(cfg, s, txs, i) ==> Distinct(txs[i].proof.inputNullifiers)
  }

  lemma DistinctStep(cfg: Config, s: State, tx: Tx)
    requires Ok(cfg, s) && LogExact(s)
    ensures var (s', r) := Transact(cfg, s, tx);
            Distinct(s'.spent) <==> Distinct(s.spent) && (r.Done? ==> Distinct(tx.proof.inputNullifiers))
  {
    if Transact(cfg, s, tx).1.Done? {
      AcceptedSteps(cfg, s, tx);
      DistinctAppend(s.spent, tx.proof.inputNullifiers);
    }
  }

  /** One more call of the run. */
  lemma DistinctOneMore(cfg: Config, s: State, txs: seq<Tx>, k: nat)
    requires Ok(cfg, s) && LogExact(s) && k < |txs|
    ensures Distinct(Run(cfg, s, txs[..k + 1]).spent)
       <==> Distinct(Run(cfg, s, txs[..k]).spent) && DistinctAt(cfg, s, txs, k)
  {
    LogStaysExact(cfg, s, txs[..k]);
    DistinctStep(cfg, Run(cfg, s, txs[..k]), txs[k]);
    assert txs[..k + 1][..k] == txs[..k];
  }

  /** A property that starts true and takes one condition at each step holds in the end if all conditions do. */
  lemma {:induction false} StepByStep(holds: seq<bool>, conditions: seq<bool>)
    requires |holds| == |conditions| + 1 && holds[0]
    requires forall k :: 0 <= k < |conditions| ==> holds[k + 1] == (holds[k] && conditions[k])
    ensures holds[|conditions|] <==> forall i :: 0 <= i < |conditions| ==> conditions[i]
    decreases |conditions|
  {
    if conditions != [] {
      var n := |conditions| - 1;
      StepByStep(holds[..n + 1], conditions[..n]);
      assert holds[n + 1] == (holds[n] && conditions[n]);
      assert forall i :: 0 <= i < n ==> conditions[..n][i] == conditions[i];
    }
  }

  /** All nullifiers ever spent are distinct exactly if no successful call repeated one of its own: across calls
      repetition is caught, within a call it is not. */
  lemma DistinctExactly(cfg: Config, s: State, txs: seq<Tx>)
    requires Ok(cfg, s) && LogExact(s) && Distinct(s.spent)
    ensures Distinct(Run(cfg, s, txs).spent) <==> forall i :: 0 <= i < |txs| ==> DistinctAt(cfg, s, txs, i)
  {
    var holds := seq(|txs| + 1, k requires 0 <= k <= |txs| => Distinct(Run(cfg, s, txs[..k]).spent));
    var conditions := seq(|txs|, i requires 0 <= i < |txs| => DistinctAt(cfg, s, txs, i));
    assert txs[..0] == [] && txs[..|txs|] == txs;
    forall k | 0 <= k < |txs| ensures holds[k + 1] == (holds[k] && conditions[k]) {
      DistinctOneMore(cfg, s, txs, k);
    }
    StepByStep(holds, conditions);
    assert forall i :: 0 <= i < |txs| ==> conditions[i] == DistinctAt(cfg, s, txs, i);
  }

  /** The same transaction with one more nullifier at the end. */
  function WithNullifier(tx: Tx, n: U256): Tx {
    tx.(proof := tx.proof.(inputNullifiers := tx.proof.inputNullifiers + [n]))
  }

  lemma RepeatedNullifierFits(nullifiers: map<U256, bool>, p: Proof, n: U256)
    requires n in p.inputNullifiers && Canonical(p)
    requires forall m :: m in p.inputNullifiers ==> !IsSpent(nullifiers, m)
    ensures var ns := p.inputNullifiers + [n];
            && Canonical(p.(inputNullifiers := ns)) && !Distinct(ns)
            && forall m :: m in ns ==> !IsSpent(nullifiers, m)
  {
    var ns := p.inputNullifiers;
    var i :| 0 <= i < |ns| && ns[i] == n;
    assert (ns + [n])[i] == (ns + [n])[|ns|];
  }

  lemma RepeatedNullifierChecked(cfg: Config, s: State, tx: Tx, n: U256)
    requires Ok(cfg, s) && Checked(cfg, s, tx) && n in tx.proof.inputNullifiers
    ensures Checked(cfg, s, WithNullifier(tx, n)) && !Distinct(WithNullifier(tx, n).proof.inputNullifiers)
  {
    RepeatedNullifierFits(s.nullifiers, tx.proof, n);
  }

  /** A transaction that repeats one of its nullifiers passes all the checks but the verifier's. */
  lemma RepeatedNullifierAccepted(cfg: Config, s: State, tx: Tx, n: U256)
    requires Ok(cfg, s) && Checked(cfg, s, tx) && n in tx.proof.inputNullifiers
    ensures var again := WithNullifier(tx, n);
            && !Distinct(again.proof.inputNullifiers) && Canonical(again.proof) && again.proof.extDataHash < P
            && (Transact(cfg, s, again).1.Done? <==> ProofAccepted(again))
  {
    RepeatedNullifierChecked(cfg, s, tx, n);
    AcceptedExactly(cfg, s, WithNullifier(tx, n));
  }

  /** A fresh pool and a proof that names nullifier 5 twice, with a verifier that lets it pass: accepted. */
  lemma RepeatedNullifierExample() returns (cfg: Config, s: State, tx: Tx)
    ensures Ok(cfg, s) && s.nullifiers == map[] && s.spent == []
    ensures Transact(cfg, s, tx).1.Done? && Transact(cfg, s, tx).0.spent == [5, 5]
  {
    cfg := Config((a, b) => 1, 0, 1, 7);
    s := State([], map[], map[], [], []);
    var bytes: Bytes := [0];
    var host := Host(true, _ => 0, (g, v) => Accepts, Some(0), Some(0));
    tx := Tx(Proof(Groth16Proof(bytes, bytes, bytes), 1, [5, 5], 0, 0, 0, 0, 0, 0), ExtData(8, 0, [], []), 9, host);
    assert Pow2(1) == 2 * Pow2(0) == 2;
    RootOfIsTopNode(cfg.h, cfg.zero, [], 1);
    assert s.leaves[..2 * 0] == [];
    assert PoolTree.InWindow(0, 0) && PoolTree.RootAfter(cfg.h, cfg.zero, 1, s.leaves, 0) == 1;
    AcceptedExactly(cfg, s, tx);
    AcceptedSteps(cfg, s, tx);
  }

  /** What one accepted transaction adds to account `a`: deposits go from the sender to the pool, withdrawals from
      the pool to the recipient. */
  function Gain(cfg: Config, tx: Tx, a: Address): int {
    var x: int := tx.ext.extAmount;
    if x > 0 then Flow(tx.sender, cfg.address, x, a) else Flow(cfg.address, tx.ext.recipient, -x, a)
  }

  ghost function TotalGain(cfg: Config, s: State, txs: seq<Tx>, a: Address): int
    requires Ok(cfg, s)
    decreases |txs|
  {
    if txs == [] then 0
    else
      var n := |txs| - 1;
      TotalGain(cfg, s, txs[..n], a) + (if Accepted(cfg, s, txs, n) then Gain(cfg, txs[n], a) else 0)
  }

  lemma TransactBalance(cfg: Config, s: State, tx: Tx, a: Address)
    requires Ok(cfg, s) && Transact(cfg, s, tx).1.Done?
    ensures Balance(Transact(cfg, s, tx).0.ledger, a) == Balance(s.ledger, a) + Gain(cfg, tx, a)
  {
  }

  /** Conservation: over a run every account changes by what the accepted transactions move to and from it, and by
      nothing else. */
  lemma {:induction false} BalanceConserved(cfg: Config, s: State, txs: seq<Tx>, a: Address)
    requires Ok(cfg, s)
    ensures Balance(Run(cfg, s, txs).ledger, a) == Balance(s.ledger, a) + TotalGain(cfg, s, txs, a)
    decreases |txs|
  {
    if txs != [] {
      var n := |txs| - 1;
      BalanceConserved(cfg, s, txs[..n], a);
      if Accepted(cfg, s, txs, n) { TransactBalance(cfg, Run(cfg, s, txs[..n]), txs[n], a); }
    }
  }

  /** The amounts that the verifier saw in the successful calls, read as signed numbers. */
  ghost function TotalPublic(cfg: Config, s: State, txs: seq<Tx>): int
    requires Ok(cfg, s)
    decreases |txs|
  {
    if txs == [] then 0
    else
      var n := |txs| - 1;
      TotalPublic(cfg, s, txs[..n])
      + (if Accepted(cfg, s, txs, n) then CentredLift(txs[n].proof.publicAmount % P) else 0)
  }

  lemma GainIsPublicAmount(cfg: Config, s: State, tx: Tx)
    requires Ok(cfg, s) && Transact(cfg, s, tx).1.Done? && tx.sender != cfg.address && tx.ext.recipient != cfg.address
    ensures Gain(cfg, tx, cfg.address) == tx.ext.extAmount == CentredLift(tx.proof.publicAmount % P)
  {
    AcceptedExactly(cfg, s, tx);
  }

  /** Solvency: when the pool never deals with itself, its balance is what the proofs say came in and went out. */
  lemma {:induction false} BalanceFollowsProofs(cfg: Config, s: State, txs: seq<Tx>)
    requires Ok(cfg, s)
    requires forall i :: 0 <= i < |txs| ==> txs[i].sender != cfg.address && txs[i].ext.recipient != cfg.address
    ensures Balance(Run(cfg, s, txs).ledger, cfg.address) == Balance(s.ledger, cfg.address) + TotalPublic(cfg, s, txs)
    decreases |txs|
  {
    if txs != [] {
      var n := |txs| - 1;
      BalanceFollowsProofs(cfg, s, txs[..n]);
      if Accepted(cfg, s, txs, n) {
        TransactBalance(cfg, Run(cfg, s, txs[..n]), txs[n], cfg.address);
        GainIsPublicAmount(cfg, Run(cfg, s, txs[..n]), txs[n]);
      }
    }
  }

  ghost function CountAccepted(cfg: Config, s: State, txs: seq<Tx>): nat
    requires Ok(cfg, s)
    decreases |txs|
  {
    if txs == [] then 0
    else CountAccepted(cfg, s, txs[..|txs| - 1]) + (if Accepted(cfg, s, txs, |txs| - 1) then 1 else 0)
  }

  /** Leaves and events are only ever appended, two per accepted transaction. */
  lemma {:induction false} RunAppends(cfg: Config, s: State, txs: seq<Tx>)
    requires Ok(cfg, s)
    ensures var s' := Run(cfg, s, txs);
            && s.leaves <= s'.leaves && s.commitments <= s'.commitments && s.spent <= s'.spent
            && |s'.leaves| == |s.leaves| + 2 * CountAccepted(cfg, s, txs) <= Pow2(cfg.levels)
    decreases |txs|
  {
    if txs != [] {
      var n := |txs| - 1;
      RunAppends(cfg, s, txs[..n]);
      if Accepted(cfg, s, txs, n) { AcceptedSteps(cfg, Run(cfg, s, txs[..n]), txs[n]); }
    }
  }
}
