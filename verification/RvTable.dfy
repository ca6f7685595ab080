/** The RV32 instruction table: which row each word selects. */
module RvTable {
  import opened Options
  import opened Bits
  import opened InstPattern

  /** A field of a row: free, or given by its binary digits. */
  datatype Field = Any | Is(v: nat)

  /** A row of the table; every row ends in the digits 11. */
  datatype Row = Row(f7: Field, rs2: Field, rs1: Field, f3: Field, rd: Field, op: Field)

  function Binary(v: nat, width: nat): string {
    if width == 0 then "" else Binary(v / 2, width - 1) + [if v % 2 == 1 then '1' else '0']
  }

  function Wildcards(width: nat): string {
    if width == 0 then "" else Wildcards(width - 1) + ['?']
  }

  function FieldText(f: Field, width: nat): string {
    match f case Any => Wildcards(width) case Is(v) => Binary(v, width)
  }

  /** The digits of a row, without the spaces between the fields. */
  function Digits(r: Row): string {
    FieldText(r.f7, 7) + (FieldText(r.rs2, 5) + (FieldText(r.rs1, 5) + LowDigits(r)))
  }

  function LowDigits(r: Row): string {
    FieldText(r.f3, 3) + (FieldText(r.rd, 5) + (FieldText(r.op, 5) + Binary(3, 2)))
  }

  /** The pattern as it is written in the table, its fields set apart by spaces. */
  function Text(r: Row): string {
    Before(r.f7, 7, Before(r.rs2, 5, Before(r.rs1, 5,
      Before(r.f3, 3, Before(r.rd, 5, Before(r.op, 5, Binary(3, 2)))))))
  }

  function Before(f: Field, width: nat, s: string): string { FieldText(f, width) + (" " + s) }

  function Opcode(op: nat): Row { Row(Any, Any, Any, Any, Any, Is(op)) }
  function Funct3(f3: nat, op: nat): Row { Row(Any, Any, Any, Is(f3), Any, Is(op)) }
  function Funct7(f7: nat, f3: nat, op: nat): Row { Row(Is(f7), Any, Any, Is(f3), Any, Is(op)) }
  function System(f7: nat, rs2: nat): Row { Row(Is(f7), Is(rs2), Is(0), Is(0), Is(0), Is(28)) }

  datatype Name =
    | Lui | Auipc | Jal | Jalr
    | Beq | Bne | Blt | Bge | Bltu | Bgeu
    | Lb | Lh | Lw | Lbu | Lhu
    | Sb | Sh | Sw
    | Addi | Slti | Sltiu | Xori | Ori | Andi | Slli | Srli | Srai
    | Add | Sub | Sll | Slt | Sltu | Xor | Srl | Sra | Or | And
    | Mul | Mulh | Mulhu | Div | Divu | Rem | Remu
    | Csrrw | Csrrs | Ecall | Ebreak | Mret

  /** The rows, in the order in which they are tried; the row that takes everything else follows. */
  function RowOf(n: Name): Row {
    match n
    case Lui => Opcode(13)
    case Auipc => Opcode(5)
    case Jal => Opcode(27)
    case Jalr => Funct3(0, 25)
    case Beq => Funct3(0, 24)
    case Bne => Funct3(1, 24)
    case Blt => Funct3(4, 24)
    case Bge => Funct3(5, 24)
    case Bltu => Funct3(6, 24)
    case Bgeu => Funct3(7, 24)
    case Lb => Funct3(0, 0)
    case Lh => Funct3(1, 0)
    case Lw => Funct3(2, 0)
    case Lbu => Funct3(4, 0)
    case Lhu => Funct3(5, 0)
    case Sb => Funct3(0, 8)
    case Sh => Funct3(1, 8)
    case Sw => Funct3(2, 8)
    case Addi => Funct3(0, 4)
    case Slti => Funct3(2, 4)
    case Sltiu => Funct3(3, 4)
    case Xori => Funct3(4, 4)
    case Ori => Funct3(6, 4)
    case Andi => Funct3(7, 4)
    case Slli => Funct7(0, 1, 4)
    case Srli => Funct7(0, 5, 4)
    case Srai => Funct7(32, 5, 4)
    case Add => Funct7(0, 0, 12)
    case Sub => Funct7(32, 0, 12)
    case Sll => Funct7(0, 1, 12)
    case Slt => Funct7(0, 2, 12)
    case Sltu => Funct7(0, 3, 12)
    case Xor => Funct7(0, 4, 12)
    case Srl => Funct7(0, 5, 12)
    case Sra => Funct7(32, 5, 12)
    case Or => Funct7(0, 6, 12)
    case And => Funct7(0, 7, 12)
    case Mul => Funct7(1, 0, 12)
    case Mulh => Funct7(1, 1, 12)
    case Mulhu => Funct7(1, 3, 12)
    case Div => Funct7(1, 4, 12)
    case Divu => Funct7(1, 5, 12)
    case Rem => Funct7(1, 6, 12)
    case Remu => Funct7(1, 7, 12)
    case Csrrw => Funct3(1, 28)
    case Csrrs => Funct3(2, 28)
    case Ecall => System(0, 0)
    case Ebreak => System(0, 1)
    case Mret => System(24, 2)
  }

  // ----- matching field by field -----

  lemma {:induction false} BinaryMatches(v: nat, width: nat, x: nat)
    ensures |Binary(v, width)| == width
    ensures Matches(Binary(v, width), x) <==> x % Pow2(width) == v % Pow2(width)
  {
    if width > 0 {
      var s := Binary(v / 2, width - 1);
      BinaryMatches(v / 2, width - 1, x / 2);
      SnocParts(s, if v % 2 == 1 then '1' else '0');
      PeelDigit(x, width - 1);
      PeelDigit(v, width - 1);
    }
  }

  lemma {:induction false} WildcardsMatch(width: nat, x: nat)
    ensures |Wildcards(width)| == width && Matches(Wildcards(width), x)
  {
    if width > 0 {
      WildcardsMatch(width - 1, x / 2);
      SnocParts(Wildcards(width - 1), '?');
    }
  }

  predicate Holds(f: Field, bound: nat, value: nat)
    requires bound > 0
  {
    f == Any || f.v % bound == value
  }

  lemma FieldMatches(f: Field, width: nat, x: nat)
    ensures |FieldText(f, width)| == width
    ensures Matches(FieldText(f, width), x) <==> Holds(f, Pow2(width), x % Pow2(width))
  {
    match f
    case Any => WildcardsMatch(width, x);
    case Is(v) => BinaryMatches(v, width, x);
  }

  // ----- the fields of a word -----

  function F7(x: nat): nat { x / 0x200_0000 % 128 }
  function Rs2(x: nat): nat { x / 0x10_0000 % 32 }
  function Rs1(x: nat): nat { x / 0x8000 % 32 }
  function F3(x: nat): nat { x / 0x1000 % 8 }
  function Rd(x: nat): nat { x / 0x80 % 32 }
  function Op(x: nat): nat { x / 4 % 32 }
  function Low(x: nat): nat { x % 4 }

  lemma AppendField(s: string, t: string, x: nat, k: nat, y: nat)
    requires |t| == k && y == Shr(x, k)
    ensures Matches(s + t, x) <==> Matches(t, x) && Matches(s, y)
  {
    MatchesAppend(s, t, x);
  }

  /** Fields start at fixed positions. */
  lemma FieldStarts(x: nat)
    ensures Shr(x, 2) == x / 4 && Shr(x, 7) == x / 0x80 && Shr(x, 12) == x / 0x1000
    ensures Shr(x, 15) == x / 0x8000 && Shr(x, 20) == x / 0x10_0000 && Shr(x, 25) == x / 0x200_0000
  {
    SmallPowers();
    ShrIsDiv(x, 2);
    ShrIsDiv(x, 7);
    ShrIsDiv(x, 12);
    ShrIsDiv(x, 15);
    ShrIsDiv(x, 20);
    ShrIsDiv(x, 25);
  }

  lemma SmallPowers()
    ensures Pow2(2) == 4 && Pow2(3) == 8 && Pow2(5) == 32 && Pow2(7) == 128 && Pow2(12) == 0x1000
    ensures Pow2(15) == 0x8000 && Pow2(20) == 0x10_0000 && Pow2(25) == 0x200_0000
  {
    assert Pow2(7) == 128;
    Pow2Add(7, 5);
    Pow2Add(12, 3);
    Pow2Add(15, 5);
    Pow2Add(20, 5);
  }

  /** The fields hold what the row asks for. */
  predicate Asks(r: Row, low: nat, op: nat, rd: nat, f3: nat, rs1: nat, rs2: nat, f7: nat) {
    && Holds(r.f7, 128, f7) && Holds(r.rs2, 32, rs2) && Holds(r.rs1, 32, rs1)
    && Holds(r.f3, 8, f3) && Holds(r.rd, 32, rd) && Holds(r.op, 32, op) && low == 3
  }

  lemma LowMatches(r: Row, x: nat)
    ensures |LowDigits(r)| == 15
    ensures Matches(LowDigits(r), x) <==> Holds(r.f3, 8, F3(x)) && Holds(r.rd, 32, Rd(x)) && Holds(r.op, 32, Op(x)) && Low(x) == 3
  {
    SmallPowers();
    FieldStarts(x);
    FieldMatches(r.f3, 3, x / 0x1000);
    FieldMatches(r.rd, 5, x / 0x80);
    FieldMatches(r.op, 5, x / 4);
    BinaryMatches(3, 2, x);
    var t0 := Binary(3, 2);
    var t1 := FieldText(r.op, 5) + t0;
    AppendField(FieldText(r.f3, 3), FieldText(r.rd, 5) + t1, x, 12, x / 0x1000);
    AppendField(FieldText(r.rd, 5), t1, x, 7, x / 0x80);
    AppendField(FieldText(r.op, 5), t0, x, 2, x / 4);
  }

  /** A word matches a row exactly when every field of the word holds what the row asks for. */
  lemma RowMatches(r: Row, x: nat)
    ensures Matches(Digits(r), x) <==> Asks(r, Low(x), Op(x), Rd(x), F3(x), Rs1(x), Rs2(x), F7(x))
  {
    SmallPowers();
    FieldStarts(x);
    LowMatches(r, x);
    FieldMatches(r.f7, 7, x / 0x200_0000);
    FieldMatches(r.rs2, 5, x / 0x10_0000);
    FieldMatches(r.rs1, 5, x / 0x8000);
    var t3 := LowDigits(r);
    var t4 := FieldText(r.rs1, 5) + t3;
    var t5 := FieldText(r.rs2, 5) + t4;
    AppendField(FieldText(r.f7, 7), t5, x, 25, x / 0x200_0000);
    AppendField(FieldText(r.rs2, 5), t4, x, 20, x / 0x10_0000);
    AppendField(FieldText(r.rs1, 5), t3, x, 15, x / 0x8000);
  }

  // ----- which row a word selects -----

  function Branch(f3: nat): Option<Name> {
    match f3
    case 0 => Some(Beq)
    case 1 => Some(Bne)
    case 4 => Some(Blt)
    case 5 => Some(Bge)
    case 6 => Some(Bltu)
    case 7 => Some(Bgeu)
    case _ => None
  }

  function Load(f3: nat): Option<Name> {
    match f3
    case 0 => Some(Lb)
    case 1 => Some(Lh)
    case 2 => Some(Lw)
    case 4 => Some(Lbu)
    case 5 => Some(Lhu)
    case _ => None
  }

  function Store(f3: nat): Option<Name> {
    match f3
    case 0 => Some(Sb)
    case 1 => Some(Sh)
    case 2 => Some(Sw)
    case _ => None
  }

  function Immediate(f3: nat, f7: nat): Option<Name> {
    match f3
    case 0 => Some(Addi)
    case 1 => if f7 == 0 then Some(Slli) else None
    case 2 => Some(Slti)
    case 3 => Some(Sltiu)
    case 4 => Some(Xori)
    case 5 => if f7 == 0 then Some(Srli) else if f7 == 32 then Some(Srai) else None
    case 6 => Some(Ori)
    case _ => Some(Andi)
  }

  function Register(f3: nat, f7: nat): Option<Name> {
    if f7 == 0 then
      match f3
      case 0 => Some(Add)
      case 1 => Some(Sll)
      case 2 => Some(Slt)
      case 3 => Some(Sltu)
      case 4 => Some(Xor)
      case 5 => Some(Srl)
      case 6 => Some(Or)
      case _ => Some(And)
    else if f7 == 32 then
      if f3 == 0 then Some(Sub) else if f3 == 5 then Some(Sra) else None
    else if f7 == 1 then
      match f3
      case 0 => Some(Mul)
      case 1 => Some(Mulh)
      case 3 => Some(Mulhu)
      case 4 => Some(Div)
      case 5 => Some(Divu)
      case 6 => Some(Rem)
      case 7 => Some(Remu)
      case _ => None
    else None
  }

  function Environment(rd: nat, f3: nat, rs1: nat, rs2: nat, f7: nat): Option<Name> {
    if f3 == 1 then Some(Csrrw)
    else if f3 == 2 then Some(Csrrs)
    else if f3 == 0 && rs1 == 0 && rd == 0 then Privileged(f7, rs2)
    else None
  }

  function Privileged(f7: nat, rs2: nat): Option<Name> {
    if f7 == 0 && rs2 == 0 then Some(Ecall)
    else if f7 == 0 && rs2 == 1 then Some(Ebreak)
    else if f7 == 24 && rs2 == 2 then Some(Mret)
    else None
  }

  /** The decision tree over opcode and function fields. */
  function SelectBy(low: nat, op: nat, rd: nat, f3: nat, rs1: nat, rs2: nat, f7: nat): Option<Name> {
    if low != 3 then None
    else
      match op
      case 13 => Some(Lui)
      case 5 => Some(Auipc)
      case 27 => Some(Jal)
      case 25 => if f3 == 0 then Some(Jalr) else None
      case 24 => Branch(f3)
      case 0 => Load(f3)
      case 8 => Store(f3)
      case 4 => Immediate(f3, f7)
      case 12 => Register(f3, f7)
      case 28 => Environment(rd, f3, rs1, rs2, f7)
      case _ => None
  }

  function Select(x: nat): Option<Name> {
    SelectBy(Low(x), Op(x), Rd(x), F3(x), Rs1(x), Rs2(x), F7(x))
  }

  /** The register-register instructions. */
  predicate IsRegister(n: Name) {
    || n.Add? || n.Sub? || n.Sll? || n.Slt? || n.Sltu? || n.Xor? || n.Srl? || n.Sra? || n.Or? || n.And?
    || n.Mul? || n.Mulh? || n.Mulhu? || n.Div? || n.Divu? || n.Rem? || n.Remu?
  }

  lemma AskedRegister(n: Name, low: nat, op: nat, rd: nat, f3: nat, rs1: nat, rs2: nat, f7: nat)
    requires IsRegister(n) && Asks(RowOf(n), low, op, rd, f3, rs1, rs2, f7)
    ensures SelectBy(low, op, rd, f3, rs1, rs2, f7) == Some(n)
  {
    match n
    case Add =>
    case Sub =>
    case Sll =>
    case Slt =>
    case Sltu =>
    case Xor =>
    case Srl =>
    case Sra =>
    case Or =>
    case And =>
    case Mul =>
    case Mulh =>
    case Mulhu =>
    case Div =>
    case Divu =>
    case Rem =>
    case Remu =>
  }

  lemma AskedOther(n: Name, low: nat, op: nat, rd: nat, f3: nat, rs1: nat, rs2: nat, f7: nat)
    requires !IsRegister(n) && Asks(RowOf(n), low, op, rd, f3, rs1, rs2, f7)
    ensures SelectBy(low, op, rd, f3, rs1, rs2, f7) == Some(n)
  {
    match n
    case Lui =>
    case Auipc =>
    case Jal =>
    case Jalr =>
    case Beq =>
    case Bne =>
    case Blt =>
    case Bge =>
    case Bltu =>
    case Bgeu =>
    case Lb =>
    case Lh =>
    case Lw =>
    case Lbu =>
    case Lhu =>
    case Sb =>
    case Sh =>
    case Sw =>
    case Addi =>
    case Slti =>
    case Sltiu =>
    case Xori =>
    case Ori =>
    case Andi =>
    case Slli =>
    case Srli =>
    case Srai =>
    case Csrrw =>
    case Csrrs =>
    case Ecall =>
    case Ebreak =>
    case Mret =>
  }

  /** The decision tree finds a row whose fields are as asked, ... */
  lemma AskedIsSelected(n: Name, low: nat, op: nat, rd: nat, f3: nat, rs1: nat, rs2: nat, f7: nat)
    requires Asks(RowOf(n), low, op, rd, f3, rs1, rs2, f7)
    ensures SelectBy(low, op, rd, f3, rs1, rs2, f7) == Some(n)
  {
    if IsRegister(n) {
      AskedRegister(n, low, op, rd, f3, rs1, rs2, f7);
    } else {
      AskedOther(n, low, op, rd, f3, rs1, rs2, f7);
    }
  }

  lemma BranchRows(n: Name, f3: nat)
    requires Branch(f3) == Some(n)
    ensures RowOf(n) == Funct3(f3, 24)
  {
  }

  lemma LoadRows(n: Name, f3: nat)
    requires Load(f3) == Some(n)
    ensures RowOf(n) == Funct3(f3, 0)
  {
  }

  lemma StoreRows(n: Name, f3: nat)
    requires Store(f3) == Some(n)
    ensures RowOf(n) == Funct3(f3, 8)
  {
  }

  lemma ImmediateRows(n: Name, f3: nat, f7: nat)
    requires f3 < 8 && Immediate(f3, f7) == Some(n)
    ensures RowOf(n) == Funct3(f3, 4) || RowOf(n) == Funct7(f7, f3, 4)
  {
  }

  lemma BaseRows(n: Name, f3: nat)
    requires f3 < 8 && Register(f3, 0) == Some(n)
    ensures RowOf(n) == Funct7(0, f3, 12)
  {
  }

  lemma RegisterRows(n: Name, f3: nat, f7: nat)
    requires f3 < 8 && Register(f3, f7) == Some(n)
    ensures RowOf(n) == Funct7(f7, f3, 12)
  {
    if f7 == 0 {
      BaseRows(n, f3);
    }
  }

  lemma SystemRows(n: Name, rd: nat, f3: nat, rs1: nat, rs2: nat, f7: nat)
    requires Environment(rd, f3, rs1, rs2, f7) == Some(n)
    ensures RowOf(n) == Funct3(f3, 28) || (RowOf(n) == System(f7, rs2) && rd == f3 == rs1 == 0)
  {
  }

  /** The row selected is made of the fields themselves. */
  lemma SelectedRow(n: Name, op: nat, rd: nat, f3: nat, rs1: nat, rs2: nat, f7: nat)
    requires f3 < 8 && SelectBy(3, op, rd, f3, rs1, rs2, f7) == Some(n)
    ensures || RowOf(n) == Opcode(op) || RowOf(n) == Funct3(f3, op) || RowOf(n) == Funct7(f7, f3, op)
            || (RowOf(n) == System(f7, rs2) && op == 28 && rd == f3 == rs1 == 0)
  {
    match op
    case 24 => BranchRows(n, f3);
    case 0 => LoadRows(n, f3);
    case 8 => StoreRows(n, f3);
    case 4 => ImmediateRows(n, f3, f7);
    case 12 => RegisterRows(n, f3, f7);
    case 28 => SystemRows(n, rd, f3, rs1, rs2, f7);
    case _ =>
  }

  lemma OwnFields(op: nat, rd: nat, f3: nat, rs1: nat, rs2: nat, f7: nat)
    requires op < 32 && f3 < 8 && f7 < 128 && rs2 < 32
    ensures Asks(Opcode(op), 3, op, rd, f3, rs1, rs2, f7)
    ensures Asks(Funct3(f3, op), 3, op, rd, f3, rs1, rs2, f7)
    ensures Asks(Funct7(f7, f3, op), 3, op, rd, f3, rs1, rs2, f7)
    ensures Asks(System(f7, rs2), 3, 28, 0, 0, 0, rs2, f7)
  {
  }

  /** ... and no other. */
  lemma SelectedIsAsked(n: Name, low: nat, op: nat, rd: nat, f3: nat, rs1: nat, rs2: nat, f7: nat)
    requires op < 32 && f3 < 8 && f7 < 128 && rs2 < 32 && SelectBy(low, op, rd, f3, rs1, rs2, f7) == Some(n)
    ensures Asks(RowOf(n), low, op, rd, f3, rs1, rs2, f7)
  {
    SelectedRow(n, op, rd, f3, rs1, rs2, f7);
    OwnFields(op, rd, f3, rs1, rs2, f7);
  }

  /** Every row is selected by exactly the words it matches. */
  lemma RowSelected(n: Name, x: nat)
    ensures Matches(Digits(RowOf(n)), x) <==> Select(x) == Some(n)
  {
    RowMatches(RowOf(n), x);
    if Matches(Digits(RowOf(n)), x) {
      AskedIsSelected(n, Low(x), Op(x), Rd(x), F3(x), Rs1(x), Rs2(x), F7(x));
    }
    if Select(x) == Some(n) {
      SelectedIsAsked(n, Low(x), Op(x), Rd(x), F3(x), Rs1(x), Rs2(x), F7(x));
    }
  }

  /** No word matches two rows. */
  lemma RowsDisjoint(m: Name, n: Name, x: nat)
    requires Matches(Digits(RowOf(m)), x) && Matches(Digits(RowOf(n)), x)
    ensures m == n
  {
    RowSelected(m, x);
    RowSelected(n, x);
  }

  /** The chain of tests: the first row that matches; None is the row for invalid instructions. */
  function FirstMatch(rows: seq<Name>, x: nat): Option<Name> {
    if rows == [] then None
    else if Matches(Digits(RowOf(rows[0])), x) then Some(rows[0])
    else FirstMatch(rows[1..], x)
  }

  lemma {:induction false} FirstMatchSelects(rows: seq<Name>, x: nat)
    ensures FirstMatch(rows, x) == if Select(x).Some? && Select(x).value in rows then Select(x) else None
  {
    if rows != [] {
      RowSelected(rows[0], x);
      FirstMatchSelects(rows[1..], x);
    }
  }

  /** So the order of the rows does not matter: tried in any order, they select by the fields alone. */
  lemma OrderIrrelevant(rows: seq<Name>, x: nat)
    requires forall n: Name :: n in rows
    ensures FirstMatch(rows, x) == Select(x)
  {
    FirstMatchSelects(rows, x);
  }

  // ----- from the written pattern -----

  lemma {:induction false} StripAppend(s: string, t: string)
    ensures Strip(s + t) == Strip(s) + Strip(t)
    decreases |t|
  {
    if t == "" {
      assert s + t == s;
    } else {
      assert Front(s + t) == s + Front(t) && Last(s + t) == Last(t);
      StripAppend(s, Front(t));
    }
  }

  lemma {:induction false} StripPattern(s: string)
    requires IsPattern(s)
    ensures Strip(s) == s
  {
    if s != "" {
      StripPattern(Front(s));
      assert s == Front(s) + [Last(s)];
    }
  }

  lemma {:induction false} BinaryPattern(v: nat, width: nat)
    ensures IsPattern(Binary(v, width)) && |Binary(v, width)| == width
  {
    if width > 0 {
      BinaryPattern(v / 2, width - 1);
    }
  }

  lemma {:induction false} WildcardsPattern(width: nat)
    ensures IsPattern(Wildcards(width)) && |Wildcards(width)| == width
  {
    if width > 0 {
      WildcardsPattern(width - 1);
    }
  }

  predicate Spaced(s: string) { forall k :: 0 <= k < |s| ==> s[k] == ' ' || IsDigit(s[k]) }

  /** One more field and a space in front. */
  lemma AddField(f: Field, width: nat, s: string, d: string)
    requires Spaced(s) && Strip(s) == d
    ensures Spaced(Before(f, width, s)) && Strip(Before(f, width, s)) == FieldText(f, width) + d
    ensures |Before(f, width, s)| == width + 1 + |s|
  {
    var t := FieldText(f, width);
    WildcardsPattern(width);
    if f.Is? {
      BinaryPattern(f.v, width);
    }
    StripPattern(t);
    StripAppend(t, " " + s);
    StripAppend(" ", s);
    assert Front(" ") == "";
  }

  /** The written pattern is legal, and its digits are those of the row. */
  lemma TextDigits(r: Row)
    ensures LegalText(Text(r)) && Strip(Text(r)) == Digits(r)
  {
    var s0, d0 := Binary(3, 2), Binary(3, 2);
    BinaryPattern(3, 2);
    StripPattern(s0);
    AddField(r.op, 5, s0, d0);
    var s1, d1 := Before(r.op, 5, s0), FieldText(r.op, 5) + d0;
    AddField(r.rd, 5, s1, d1);
    var s2, d2 := Before(r.rd, 5, s1), FieldText(r.rd, 5) + d1;
    AddField(r.f3, 3, s2, d2);
    var s3, d3 := Before(r.f3, 3, s2), FieldText(r.f3, 3) + d2;
    AddField(r.rs1, 5, s3, d3);
    var s4, d4 := Before(r.rs1, 5, s3), FieldText(r.rs1, 5) + d3;
    AddField(r.rs2, 5, s4, d4);
    AddField(r.f7, 7, Before(r.rs2, 5, s4), FieldText(r.rs2, 5) + d4);
  }

  /** The test computed for a row of the table passes exactly the words the decision tree assigns to
      that row. */
  method RowTest(n: Name) returns (t: Test)
    ensures forall x: nat :: Passes(t, x) <==> Select(x) == Some(n)
  {
    TextDigits(RowOf(n));
    var r := PatternDecode(Text(RowOf(n)));
    t := r.value;
    forall x: nat
      ensures Passes(t, x) <==> Select(x) == Some(n)
    {
      RowSelected(n, x);
    }
  }
}
