/** Memory accesses whose second-slot arm is left out because of what is known about the offset
modulo 32. */
module AlignedAccess {
  import opened Bytes
  import opened FlatMemory
  import opened ScratchMemory
  import Alignment

  /** The run-time offset: the low eight bytes of the expression's value. */
  function Offset(e: Alignment.Expr, env: map<string, nat>): nat
    requires Alignment.Eval(e, env).Some?
  {
    Alignment.Eval(e, env).value % TWO_64
  }

  lemma ResidueOfOffset(e: Alignment.Expr, facts: Alignment.Facts, env: map<string, nat>)
    requires Alignment.FactsHold(facts, env) && Alignment.Eval(e, env).Some?
    ensures var r := Alignment.Residue(e, facts); r.Some? ==> Offset(e, env) % 32 == r.value
  {
    if Alignment.Residue(e, facts).Some? {
      Alignment.ResidueIsSound(e, facts, env);
    }
  }

  predicate StaysInPage(off: nat, len: nat) {
    off % SLOT + len <= SLOT
  }

  /** The guard for leaving out the second-slot arm is the weakest there is: it holds if and only
  if no offset with that residue crosses a page. */
  lemma GuardExactly(r: nat, len: nat)
    requires r < 32
    ensures len + r <= 32 <==> forall off: nat | off % 32 == r :: StaysInPage(off, len)
  {
    if len + r <= 32 {
      forall off: nat | off % 32 == r
        ensures StaysInPage(off, len)
      {
        ResidueFits(off, len, r);
      }
    } else {
      var last := SLOT - 32 + r;
      assert last % 32 == r && !StaysInPage(last, len);
    }
  }

  /** ELISION IS SOUND. A word read that keeps or drops the second-slot arm as the analysis says
  is the general read: the flat word inside memory, the bounds assertion outside. */
  method ReadWordAt(m: Scratch, e: Alignment.Expr, facts: Alignment.Facts, env: map<string, nat>)
    returns (r: Option<bytes>)
    requires m.Valid() && Alignment.FactsHold(facts, env) && Alignment.Eval(e, env).Some?
    ensures r.Some? <==> Offset(e, env) + 32 <= m.Capacity()
    ensures r.Some? ==> r.value == m.Memory()[Offset(e, env)..Offset(e, env) + 32]
  {
    ResidueOfOffset(e, facts, env);
    r := m.ReadWord(Offset(e, env), Alignment.Residue(e, facts));
  }

  /** The same for writes, where the split arm is dropped for residue 0 only. */
  method WriteWordAt(m: Scratch, e: Alignment.Expr, facts: Alignment.Facts, env: map<string, nat>, v: bytes)
    returns (ok: bool)
    requires m.Valid() && |v| == 32 && Alignment.FactsHold(facts, env) && Alignment.Eval(e, env).Some?
    modifies m.slots
    ensures m.Valid() && m.Others() == old(m.Others())
    ensures ok <==> Offset(e, env) + 32 <= m.Capacity()
    ensures m.Memory() == if ok then Over(old(m.Memory()), Offset(e, env), v) else old(m.Memory())
  {
    ResidueOfOffset(e, facts, env);
    ok := m.WriteWord(Offset(e, env), v, Alignment.Residue(e, facts) == Some(0));
  }
}
