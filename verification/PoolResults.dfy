/** What each call to the pool answers and does, spelled out field by field. */
module PoolResults {
  import opened Bits
  import opened Bn254
  import opened Amounts
  import opened HostCalls
  import opened Merkle
  import opened Pool
  import PoolTree

  // ---------------------------------------------------------------- payments

  /** The sender has the amount, and the receiver's balance stays within `i128`. */
  predicate CanPay(l: Ledger, from: Address, to: Address, amount: int) {
    amount <= 0
    || (Balance(l, from) >= amount && (if from == to then Balance(l, from) else Balance(l, to) + amount) <= I128_MAX)
  }

  /** Exactly when a transfer goes through, and what it does to the two accounts. */
  lemma TransferExactly(l: Ledger, from: Address, to: Address, amount: nat)
    requires amount > 0
    ensures Transfer(l, from, to, amount).Some? <==> CanPay(l, from, to, amount)
    ensures Transfer(l, from, to, amount).Some? ==>
      var l' := Transfer(l, from, to, amount).value;
      && (from != to ==> Balance(l', from) == Balance(l, from) - amount && Balance(l', to) == Balance(l, to) + amount)
      && forall a :: (a != from && a != to) || from == to ==> Balance(l', a) == Balance(l, a)
  {
  }

  lemma PayExactly(l: Ledger, from: Address, to: Address, amount: int)
    ensures var r := Pay(l, from, to, amount);
      && (r.Done? <==> amount <= I128_MAX && CanPay(l, from, to, amount))
      && (r == Failed(WrongExtAmount) <==> amount > I128_MAX)
      && (r.Failed? ==> r.error == WrongExtAmount)
      && (amount <= 0 ==> r == Done(l))
  {
    if 0 < amount <= I128_MAX { TransferExactly(l, from, to, amount); }
  }

  // ---------------------------------------------------------------- the checks, one after the other

  /** Each predicate adds one check to the one before. */
  ghost predicate Known(cfg: Config, s: State, tx: Tx)
    requires Ok(cfg, s)
  {
    var k := |s.leaves| / 2;
    tx.proof.root != 0 && exists t: nat ::
      t <= k < t + 90 && tx.proof.root == PoolTree.RootAfter(cfg.h, cfg.zero, cfg.levels, s.leaves, t)
  }

  ghost predicate Unspent(cfg: Config, s: State, tx: Tx)
    requires Ok(cfg, s)
  {
    && Known(cfg, s, tx)
    && forall n :: n in tx.proof.inputNullifiers ==> !(n in s.nullifiers && s.nullifiers[n])
  }

  ghost predicate Hashed(cfg: Config, s: State, tx: Tx)
    requires Ok(cfg, s)
  {
    Unspent(cfg, s, tx) && tx.proof.extDataHash == tx.host.keccak(tx.ext) % P
  }

  ghost predicate Encodes(cfg: Config, s: State, tx: Tx)
    requires Ok(cfg, s)
  {
    var x: int := tx.ext.extAmount;
    && Hashed(cfg, s, tx) && -MAX_EXT_AMOUNT < x < MAX_EXT_AMOUNT
    && tx.proof.publicAmount == if x >= 0 then x else P + x
  }

  ghost predicate Approved(cfg: Config, s: State, tx: Tx)
    requires Ok(cfg, s)
  {
    && Encodes(cfg, s, tx)
    && tx.host.membershipRoot == Some(tx.proof.aspMembershipRoot)
    && tx.host.nonMembershipRoot == Some(tx.proof.aspNonMembershipRoot)
  }

  ghost predicate Present(cfg: Config, s: State, tx: Tx)
    requires Ok(cfg, s)
  {
    Approved(cfg, s, tx) && tx.proof.proof.a != [] && tx.proof.proof.b != [] && tx.proof.proof.c != []
  }

  ghost predicate InModulus(cfg: Config, s: State, tx: Tx)
    requires Ok(cfg, s)
  {
    var p := tx.proof;
    && Present(cfg, s, tx)
    && p.root < P && p.publicAmount < P && (forall n :: n in p.inputNullifiers ==> n < P)
    && p.outputCommitment0 < P && p.outputCommitment1 < P && p.aspMembershipRoot < P && p.aspNonMembershipRoot < P
  }

  ghost predicate Says(cfg: Config, s: State, tx: Tx, verdict: Verdict)
    requires Ok(cfg, s)
  {
    InModulus(cfg, s, tx) && tx.host.verify(tx.proof.proof, PublicInputs(tx.proof)) == verdict
  }

  /** A policy root differs, the proof is empty, or the verifier rejects it. */
  ghost predicate Unproven(cfg: Config, s: State, tx: Tx)
    requires Ok(cfg, s)
  {
    || (Encodes(cfg, s, tx) && !Approved(cfg, s, tx)
        && tx.host.membershipRoot.Some? && tx.host.nonMembershipRoot.Some?)
    || (Approved(cfg, s, tx) && !Present(cfg, s, tx))
    || Says(cfg, s, tx, Rejects)
  }

  /** Exactly when the checks end in which result. */
  lemma ValidateExactly(cfg: Config, s: State, tx: Tx)
    requires Ok(cfg, s)
    ensures var v := Validate(cfg, s, tx);
      && (v == Failed(UnknownRoot) <==> !Known(cfg, s, tx))
      && (v == Failed(AlreadySpentNullifier) <==> Known(cfg, s, tx) && !Unspent(cfg, s, tx))
      && (v == Failed(WrongExtHash) <==> Unspent(cfg, s, tx) && !Hashed(cfg, s, tx))
      && (v == Failed(WrongExtAmount) <==>
            Hashed(cfg, s, tx) && tx.ext.extAmount != I256_MIN && !Encodes(cfg, s, tx))
      && (v == Failed(InvalidProof) <==> Unproven(cfg, s, tx))
      && (v == Failed(NonCanonicalPublicInput) <==> Present(cfg, s, tx) && !InModulus(cfg, s, tx))
      && (v == Done(()) <==> Says(cfg, s, tx, Accepts))
      && v != Failed(MerkleTreeFull)
  {
    PoolTree.WindowIsNinety(tx.proof.root, cfg.h, cfg.zero, cfg.levels, s.leaves, |s.leaves| / 2);
  }

  /** Authorized, with a deposit, if any, that went through. */
  predicate Entered(cfg: Config, s: State, tx: Tx) {
    var x := tx.ext.extAmount;
    tx.host.senderAuthorized && x <= I128_MAX && CanPay(s.ledger, tx.sender, cfg.address, x)
  }

  /** Exactly when a call ends in which result; every other call traps. */
  lemma TransactExactly(cfg: Config, s: State, tx: Tx)
    requires Ok(cfg, s)
    ensures var r, x := Transact(cfg, s, tx).1, tx.ext.extAmount;
      var paid := Entered(cfg, s, tx) && Says(cfg, s, tx, Accepts) && x >= -I128_MAX
                  && CanPay(s.ledger, cfg.address, tx.ext.recipient, 0 - x);
      && (r == Failed(UnknownRoot) <==> Entered(cfg, s, tx) && !Known(cfg, s, tx))
      && (r == Failed(AlreadySpentNullifier) <==>
            Entered(cfg, s, tx) && Known(cfg, s, tx) && !Unspent(cfg, s, tx))
      && (r == Failed(WrongExtHash) <==> Entered(cfg, s, tx) && Unspent(cfg, s, tx) && !Hashed(cfg, s, tx))
      && (r == Failed(WrongExtAmount) <==>
            || (tx.host.senderAuthorized && x > I128_MAX)
            || (Entered(cfg, s, tx) && Hashed(cfg, s, tx) && x != I256_MIN && !Encodes(cfg, s, tx))
            || (Entered(cfg, s, tx) && Says(cfg, s, tx, Accepts) && x < -I128_MAX))
      && (r == Failed(InvalidProof) <==> Entered(cfg, s, tx) && Unproven(cfg, s, tx))
      && (r == Failed(NonCanonicalPublicInput) <==>
            Entered(cfg, s, tx) && Present(cfg, s, tx) && !InModulus(cfg, s, tx))
      && (r == Failed(MerkleTreeFull) <==> paid && |s.leaves| == Pow2(cfg.levels))
      && (r == Done(()) <==> paid && |s.leaves| < Pow2(cfg.levels))
  {
    var x: int := tx.ext.extAmount;
    PayExactly(s.ledger, tx.sender, cfg.address, x);
    PayExactly(s.ledger, cfg.address, tx.ext.recipient, -x);
    var deposited := Pay(s.ledger, tx.sender, cfg.address, x);
    if deposited.Done? {
      assert Validate(cfg, s.(ledger := deposited.value), tx) == Validate(cfg, s, tx);
      ValidateExactly(cfg, s, tx);
      assert x <= 0 ==> deposited.value == s.ledger;
    }
  }

  /** What an accepted transaction does to every part of the state but the ledger: the outputs are appended in order,
      each published with its own index and its own ciphertext, and exactly the inputs become spent. */
  lemma AcceptedEffects(cfg: Config, s: State, tx: Tx)
    requires Ok(cfg, s) && Transact(cfg, s, tx).1.Done?
    ensures var s', p, n := Transact(cfg, s, tx).0, tx.proof, |s.leaves|;
      && p.outputCommitment0 < P && p.outputCommitment1 < P
      && s'.leaves == s.leaves + [p.outputCommitment0, p.outputCommitment1]
      && |s'.commitments| == n + 2 && s'.commitments[..n] == s.commitments
      && s'.commitments[n].commitment == p.outputCommitment0 && s'.commitments[n].index == n
      && s'.commitments[n].encryptedOutput == tx.ext.encryptedOutput0
      && s'.commitments[n + 1].commitment == p.outputCommitment1 && s'.commitments[n + 1].index == n + 1
      && s'.commitments[n + 1].encryptedOutput == tx.ext.encryptedOutput1
      && s'.spent == s.spent + p.inputNullifiers
      && (forall m :: m in s'.nullifiers <==> m in s.nullifiers || m in p.inputNullifiers)
      && (forall m :: m in s'.nullifiers ==> s'.nullifiers[m] == (m in p.inputNullifiers || s.nullifiers[m]))
  {
    AcceptedSteps(cfg, s, tx);
  }

  // ---------------------------------------------------------------- two accepted transactions

  function ExampleTx(extAmount: I256, publicAmount: U256): Tx {
    var bytes: Bytes := [0];
    var host := Host(true, _ => 0, (g, v) => Accepts, Some(2), Some(3));
    Tx(Proof(Groth16Proof(bytes, bytes, bytes), 1, [5], 11, 12, publicAmount, 0, 2, 3),
       ExtData(8, extAmount, [1], [2]), 9, host)
  }

  /** A pool at address 7, with an initial root of one. */
  function ExampleConfig(): Config {
    Config((a, b) => 1, 0, 1, 7)
  }

  function ExampleState(ledger: Ledger): State {
    State([], map[], ledger, [], [])
  }

  lemma ExampleKnown(ledger: Ledger, tx: Tx)
    requires tx.proof.root == 1
    ensures Ok(ExampleConfig(), ExampleState(ledger)) && Known(ExampleConfig(), ExampleState(ledger), tx)
  {
    var cfg, s := ExampleConfig(), ExampleState(ledger);
    assert Pow2(1) == 2 * Pow2(0) == 2;
    RootOfIsTopNode(cfg.h, cfg.zero, [], 1);
    assert s.leaves[..2 * 0] == [];
    assert PoolTree.RootAfter(cfg.h, cfg.zero, 1, s.leaves, 0) == 1;
  }

  lemma ExampleAccepted(ledger: Ledger, x: I256, amount: U256)
    requires InBounds(x) && amount == if x >= 0 then x else P + x
    requires Entered(ExampleConfig(), ExampleState(ledger), ExampleTx(x, amount))
    requires -I128_MAX <= x && CanPay(ledger, 7, 8, 0 - x)
    ensures Ok(ExampleConfig(), ExampleState(ledger))
    ensures Transact(ExampleConfig(), ExampleState(ledger), ExampleTx(x, amount)).1.Done?
  {
    var cfg, s, tx := ExampleConfig(), ExampleState(ledger), ExampleTx(x, amount);
    ExampleKnown(ledger, tx);
    assert Encodes(cfg, s, tx);
    assert Says(cfg, s, tx, Accepts);
    TransactExactly(cfg, s, tx);
  }

  lemma ExampleEffects(ledger: Ledger, x: I256, amount: U256)
    requires Ok(ExampleConfig(), ExampleState(ledger))
    requires Transact(ExampleConfig(), ExampleState(ledger), ExampleTx(x, amount)).1.Done?
    ensures var s := Transact(ExampleConfig(), ExampleState(ledger), ExampleTx(x, amount)).0;
      && s.leaves == [11, 12] && s.nullifiers == map[5 := true] && s.spent == [5]
      && s.commitments == [NewCommitment(11, 0, [1]), NewCommitment(12, 1, [2])]
  {
    AcceptedEffects(ExampleConfig(), ExampleState(ledger), ExampleTx(x, amount));
  }

  lemma ExampleLedger(ledger: Ledger, x: I256, amount: U256)
    requires Ok(ExampleConfig(), ExampleState(ledger))
    requires Transact(ExampleConfig(), ExampleState(ledger), ExampleTx(x, amount)).1.Done?
    ensures Pay(ledger, 9, 7, x).Done? && Pay(Pay(ledger, 9, 7, x).value, 7, 8, 0 - x).Done?
    ensures Transact(ExampleConfig(), ExampleState(ledger), ExampleTx(x, amount)).0.ledger
         == Pay(Pay(ledger, 9, 7, x).value, 7, 8, 0 - x).value
  {
  }

  /** A withdrawal of 5 with the public amount `P - 5`: the pool pays account 8. */
  lemma WithdrawalExample()
    ensures var cfg, s, tx := ExampleConfig(), ExampleState(map[7 := 10]), ExampleTx(-5, P - 5);
      && Ok(cfg, s)
      && Transact(cfg, s, tx)
      == (State([11, 12], map[5 := true], map[7 := 5, 8 := 5],
                [NewCommitment(11, 0, [1]), NewCommitment(12, 1, [2])], [5]), Done(()))
  {
    ExampleAccepted(map[7 := 10], -5, P - 5);
    ExampleEffects(map[7 := 10], -5, P - 5);
    ExampleLedger(map[7 := 10], -5, P - 5);
    assert Pay(map[7 := 10], 7, 8, 5).value == map[7 := 5, 8 := 5];
  }

  /** A deposit of 4: account 9 pays the pool. */
  lemma DepositExample()
    ensures var cfg, s, tx := ExampleConfig(), ExampleState(map[9 := 10]), ExampleTx(4, 4);
      && Ok(cfg, s)
      && Transact(cfg, s, tx)
      == (State([11, 12], map[5 := true], map[9 := 6, 7 := 4],
                [NewCommitment(11, 0, [1]), NewCommitment(12, 1, [2])], [5]), Done(()))
  {
    ExampleAccepted(map[9 := 10], 4, 4);
    ExampleEffects(map[9 := 10], 4, 4);
    ExampleLedger(map[9 := 10], 4, 4);
    assert Pay(map[9 := 10], 9, 7, 4).value == map[9 := 6, 7 := 4];
  }
}
