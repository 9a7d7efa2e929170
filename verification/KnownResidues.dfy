/** What the two residue analyses know, apart from being right: which offsets get a residue and
which blocks and declarations are accepted. */
module KnownResidues {
  import opened Bytes
  import opened FreeMemoryPointer
  import Alignment
  import AlignedLocals

  // ---- lowered offsets -------------------------------------------------------------------

  predicate IsZero(e: Alignment.Expr, facts: Alignment.Facts) {
    Alignment.Residue(e, facts) == Some(0)
  }

  /** A shift by a literal of one or two digits, at least 5. */
  predicate WordShift(e: Alignment.Expr) {
    e.IntConst? && Alignment.IsDecimal(e.digits) && |e.digits| <= 2 && Alignment.Decimal(e.digits) >= 5
  }

  /** Decimal constants, recorded locals, their sums and differences, products with a known
  multiple of 32, remainders by one, and word shifts. */
  predicate Given(e: Alignment.Expr, facts: Alignment.Facts) {
    match e
    case IntConst(s) => Alignment.IsDecimal(s)
    case Var(x) => x in facts.aligned || (x in facts.constants && Alignment.IsDecimal(facts.constants[x]))
    case SingleEval(s) => Given(s, facts)
    case Cast(s) => Given(s, facts)
    case Opaque(_) => false
    case Big(op, l, r) =>
      if op.BigAdd? || op.BigSub? then Given(l, facts) && Given(r, facts)
      else if op.BigMul? then IsZero(l, facts) || IsZero(r, facts)
      else op.BigMod? && Given(l, facts) && IsZero(r, facts)
    case Small(op, l, r) =>
      if op.Add? || op.Sub? then Given(l, facts) && Given(r, facts)
      else if op.Mul? then IsZero(l, facts) || IsZero(r, facts)
      else if op.Mod? then Given(l, facts) && IsZero(r, facts)
      else op.Shl? && WordShift(r)
  }

  /** `alignmentMod32` gives these a residue and no others. */
  lemma {:induction false} ResidueExactly(e: Alignment.Expr, facts: Alignment.Facts)
    ensures Alignment.Residue(e, facts).Some? <==> Given(e, facts)
  {
    match e
    case SingleEval(s) => ResidueExactly(s, facts);
    case Cast(s) => ResidueExactly(s, facts);
    case Big(_, l, r) =>
      ResidueExactly(l, facts);
      ResidueExactly(r, facts);
    case Small(_, l, r) =>
      ResidueExactly(l, facts);
      ResidueExactly(r, facts);
    case _ =>
  }

  // ---- Yul expressions -------------------------------------------------------------------

  predicate YulZero(e: YExpr, fmp: set<string>, known: Known) {
    Residue(e, fmp, known) == Some(0)
  }

  /** Literals, pointer locals, decimal constants, mload(0x40), their sums and differences,
  products with a known multiple of 32, and masks that are one. */
  predicate YulGiven(e: YExpr, fmp: set<string>, known: Known) {
    match e
    case Literal(_) => true
    case TextLiteral => false
    case Ident(x) => x in fmp || (x in known.constants && Alignment.IsDecimal(known.constants[x]))
    case Call(fn, args) =>
      || IsFmpLoad(e)
      || (|args| == 2 &&
          if fn == "add" || fn == "sub" then YulGiven(args[0], fmp, known) && YulGiven(args[1], fmp, known)
          else if fn == "mul" then YulZero(args[0], fmp, known) || YulZero(args[1], fmp, known)
          else fn == "and" && YulZero(args[1], fmp, known))
  }

  /** `yulAlignmentMod32` gives these a residue and no others. */
  lemma {:induction false} YulResidueExactly(e: YExpr, fmp: set<string>, known: Known)
    ensures Residue(e, fmp, known).Some? <==> YulGiven(e, fmp, known)
  {
    if e.Call? && |e.args| == 2 {
      YulResidueExactly(e.args[0], fmp, known);
      YulResidueExactly(e.args[1], fmp, known);
    }
  }

  // ---- accepted blocks -------------------------------------------------------------------

  function Bump(base: YExpr, n: nat): YStmt {
    ExprStmt(Call("mstore", [Literal(0x40), Call("add", [base, Literal(n)])]))
  }

  function Pointer(): YExpr { Call("mload", [Literal(0x40)]) }

  lemma BumpResidue(base: YExpr, n: nat, fmp: set<string>, known: Known)
    requires YulZero(base, fmp, known)
    ensures StoreAligned(Bump(base, n), fmp, known) <==> n % 32 == 0
  {
    assert Residue(Call("add", [base, Literal(n)]), fmp, known) == Alignment.SumResidue(Some(0), Some(n % 32));
  }

  /** mstore(0x40, add(mload(0x40), n)) is accepted if and only if n is a multiple of 32. */
  lemma BumpAccepted(n: nat, known: Known)
    ensures Accepts([Bump(Pointer(), n)], known) <==> n % 32 == 0
  {
    var ss := [Bump(Pointer(), n)];
    assert ss[1..] == [];
    assert Within(ss) == {ss[0]};
    BumpResidue(Pointer(), n, FmpLocals(Within(ss), known), known);
  }

  /** let p := mload(0x40) mstore(0x40, add(p, n)), with p not assigned again, is too. */
  lemma LocalBumpAccepted(p: string, n: nat, known: Known)
    requires p !in known.reassigned
    ensures Accepts([Declare([p], Some(Pointer())), Bump(Ident(p), n)], known) <==> n % 32 == 0
  {
    var ss := [Declare([p], Some(Pointer())), Bump(Ident(p), n)];
    assert ss[1..][1..] == [];
    assert Within(ss) == {ss[0]} + Within(ss[1..]) == {ss[0], ss[1]};
    assert IsFmpLocal(ss[0], known.reassigned) && ss[0].names[0] == p;
    BumpResidue(Ident(p), n, FmpLocals(Within(ss), known), known);
    assert ss[1] in Within(ss);
  }

  /** In an accepted block the pointer's local is recorded, and so is a local n bytes further on
  if and only if n is a multiple of 32. */
  lemma PointerRecorded(c: AlignedLocals.Setting, p: string, q: string, n: nat, aligned: set<string>)
    requires c.accepted && AlignedLocals.Whole(c.modulus) && p !in c.known.reassigned && q !in c.known.reassigned
    ensures var all := AlignedLocals.Recorded(c, Declare([p], Some(Pointer())), aligned);
            p in all && (q in AlignedLocals.Recorded(c, SumLocal(q, p, n), all) <==> n % 32 == 0)
  {
    var all := AlignedLocals.Recorded(c, Declare([p], Some(Pointer())), aligned);
    assert p in Declare([p], Some(Pointer())).names && p in all;
    SumLocalResidue(c, p, n, all);
    assert q in SumLocal(q, p, n).names && !IsFmpLoad(SumLocal(q, p, n).value.value);
  }

  function SumLocal(q: string, p: string, n: nat): YStmt {
    Declare([q], Some(Call("add", [Ident(p), Literal(n)])))
  }

  lemma SumLocalResidue(c: AlignedLocals.Setting, p: string, n: nat, aligned: set<string>)
    requires AlignedLocals.Whole(c.modulus) && p in aligned
    ensures c.Residue(Call("add", [Ident(p), Literal(n)]), aligned) == Some(n % 32)
  {
    var args, facts := [Ident(p), Literal(n)], c.Facts(aligned);
    AlignedLocals.ArithmeticResidue("add", args, facts, c.modulus, _ => 0, 0);
    var spelled := AlignedLocals.Spelling(n);
    assert AlignedLocals.Lowered(args[0], c.modulus, _ => 0) == Alignment.Var(p);
    assert AlignedLocals.Lowered(args[1], c.modulus, _ => 0) == Alignment.IntConst(spelled);
    assert Alignment.ResidueOf(spelled) == Some(n % 32);
  }

  // ---- the statements looked at ------------------------------------------------------------

  /** A statement directly inside another. */
  predicate Contains(s: YStmt, child: YStmt) {
    match s
    case If(_, body) => child in body
    case Switch(_, cases) => exists j :: 0 <= j < |cases| && child in cases[j].body
    case For(pre, _, post, body) => child in pre || child in post || child in body
    case Function(_, _, _, body) => child in body
    case Scope(body) => child in body
    case _ => false
  }

  ghost predicate ClosedUnder(S: set<YStmt>) {
    forall s, child :: s in S && Contains(s, child) ==> child in S
  }

  lemma {:induction false} HasEach(ss: seq<YStmt>, s: YStmt)
    requires s in ss
    ensures Inside(s) <= Within(ss) && s in Within(ss)
  {
    if s != ss[0] {
      assert s in ss[1..];
      HasEach(ss[1..], s);
    }
  }

  lemma {:induction false} HasCases(cases: seq<YCase>, j: nat)
    requires j < |cases|
    ensures Within(cases[j].body) <= WithinAny(cases)
  {
    if j > 0 {
      HasCases(cases[1..], j - 1);
    }
  }

  /** A statement's own children are inside it. */
  lemma ChildInside(s: YStmt, child: YStmt)
    requires Contains(s, child)
    ensures child in Inside(s)
  {
    match s
    case If(_, body) => HasEach(body, child);
    case Switch(_, cases) =>
      var j :| 0 <= j < |cases| && child in cases[j].body;
      HasEach(cases[j].body, child);
      HasCases(cases, j);
    case For(pre, _, post, body) =>
      if child in pre { HasEach(pre, child); }
      if child in post { HasEach(post, child); }
      if child in body { HasEach(body, child); }
    case Function(_, _, _, body) => HasEach(body, child);
    case Scope(body) => HasEach(body, child);
  }

  /** The walk reaches the statements of the block and, with any statement, those inside it. */
  lemma {:induction false} WithinIsClosed(ss: seq<YStmt>)
    ensures (forall s :: s in ss ==> s in Within(ss)) && ClosedUnder(Within(ss))
    decreases ss, 1
  {
    forall s | s in ss
      ensures s in Within(ss)
    {
      HasEach(ss, s);
    }
    forall s, child | s in Within(ss) && Contains(s, child)
      ensures child in Within(ss)
    {
      if s in Inside(ss[0]) {
        InsideIsClosed(ss[0]);
      } else {
        WithinIsClosed(ss[1..]);
      }
    }
  }

  lemma {:induction false} InsideIsClosed(stmt: YStmt)
    ensures ClosedUnder(Inside(stmt))
    decreases stmt, 2
  {
    forall s, child | s in Inside(stmt) && Contains(s, child)
      ensures child in Inside(stmt)
    {
      if s == stmt {
        ChildInside(stmt, child);
      } else {
        PartsAreClosed(stmt);
      }
    }
  }

  lemma {:induction false} PartsAreClosed(stmt: YStmt)
    ensures forall s, child :: s in Inside(stmt) && s != stmt && Contains(s, child) ==> child in Inside(stmt)
    decreases stmt, 1
  {
    match stmt
    case If(_, body) => WithinIsClosed(body);
    case Switch(_, cases) => CasesAreClosed(cases);
    case For(pre, _, post, body) =>
      WithinIsClosed(pre);
      WithinIsClosed(post);
      WithinIsClosed(body);
    case Function(_, _, _, body) => WithinIsClosed(body);
    case Scope(body) => WithinIsClosed(body);
    case _ =>
  }

  lemma {:induction false} CasesAreClosed(cases: seq<YCase>)
    ensures ClosedUnder(WithinAny(cases))
    decreases cases, 0
  {
    if |cases| > 0 {
      WithinIsClosed(cases[0].body);
      CasesAreClosed(cases[1..]);
    }
  }

  /** It reaches no others. */
  lemma {:induction false} WithinIsLeast(ss: seq<YStmt>, S: set<YStmt>)
    requires ClosedUnder(S) && forall s :: s in ss ==> s in S
    ensures Within(ss) <= S
    decreases ss, 0
  {
    if |ss| > 0 {
      InsideIsLeast(ss[0], S);
      WithinIsLeast(ss[1..], S);
    }
  }

  lemma {:induction false} InsideIsLeast(stmt: YStmt, S: set<YStmt>)
    requires ClosedUnder(S) && stmt in S
    ensures Inside(stmt) <= S
    decreases stmt, 1
  {
    assert forall child :: Contains(stmt, child) ==> child in S;
    match stmt
    case If(_, body) => WithinIsLeast(body, S);
    case Switch(_, cases) => CasesAreLeast(cases, S);
    case For(pre, _, post, body) =>
      WithinIsLeast(pre, S);
      WithinIsLeast(post, S);
      WithinIsLeast(body, S);
    case Function(_, _, _, body) => WithinIsLeast(body, S);
    case Scope(body) => WithinIsLeast(body, S);
    case _ =>
  }

  lemma {:induction false} CasesAreLeast(cases: seq<YCase>, S: set<YStmt>)
    requires ClosedUnder(S) && forall j, s :: 0 <= j < |cases| && s in cases[j].body ==> s in S
    ensures WithinAny(cases) <= S
    decreases cases, 0
  {
    if |cases| > 0 {
      WithinIsLeast(cases[0].body, S);
      forall j, s | 0 <= j < |cases[1..]| && s in cases[1..][j].body
        ensures s in S
      {
        assert s in cases[j + 1].body;
      }
      CasesAreLeast(cases[1..], S);
    }
  }
}
