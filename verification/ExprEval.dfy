/** The evaluator of src/expr_eval.c over an abstract memory and type table. */
module ExprEval {
  import opened Common
  import opened Words
  import opened Leb128
  import opened Scalars
  import ES = ExprSyntax

  /** What the evaluator asks about the debuggee: a scalar of some size, the declared type and the
      address of a variable, the offset and type of a struct member, the byte size of
      a struct (0 if unknown), and the element type and count of an array type. */
  datatype Env = Env(
    read: (Addr, nat) -> Option<U64>,
    variable: string -> Option<(string, Addr)>,
    member: (string, string) -> Option<(U64, string)>,
    structSize: string -> nat,
    arrayType: string -> Option<(string, nat)>)

  // Type strings.

  predicate Mentions(t: string, word: string) {
    exists i | 0 <= i <= |t| - |word| :: WordAt(t, word, i)
  }

  predicate WordAt(t: string, word: string, i: nat)
    requires i + |word| <= |t|
  {
    t[i..i + |word|] == word
  }

  predicate HasStar(t: string) {
    '*' in t
  }

  function TrimRight(t: string): (r: string)
    ensures forall c | c in r :: c in t
  {
    if t == "" || t[|t| - 1] != ' ' then t else TrimRight(t[..|t| - 1])
  }

  function UpToStar(t: string): (r: string)
    ensures !HasStar(r)
  {
    if t == "" || t[0] == '*' then "" else [t[0]] + UpToStar(t[1..])
  }

  // strip_pointer_star
  function StripStar(t: string): string {
    if HasStar(t) then TrimRight(UpToStar(t)) else ""
  }

  // pointer_pointee_type
  function PointeeType(t: string): string {
    if HasStar(t) then TrimRight(UpToStar(t)) else t
  }

  // make_pointer_type
  function PointerTo(t: string): string {
    if t == "" then "" else TrimRight(t) + " *"
  }

  function ScalarSize(t: string): nat {
    if HasStar(t) then 8
    else if Mentions(t, "char") then 1
    else if Mentions(t, "short") then 2
    else if Mentions(t, "long") then 8
    else if Mentions(t, "int") || Mentions(t, "bool") then 4
    else 8
  }

  predicate IsScalar(t: string) {
    t != "" &&
    (HasStar(t) || Mentions(t, "char") || Mentions(t, "short") || Mentions(t, "int") || Mentions(t, "long") || Mentions(t, "bool"))
  }

  // type_element_size
  function ElementSize(env: Env, t: string): nat {
    if t == "" then 0
    else if IsScalar(t) then ScalarSize(t)
    else if env.structSize(t) > 0 then env.structSize(t)
    else 8
  }

  predicate IsSignedType(t: string) {
    !Mentions(t, "unsigned")
  }

  // The size complete_var_type gives a variable.
  function VariableSize(env: Env, t: string): nat {
    match env.arrayType(t)
    case Some((element, count)) => ElementSize(env, element) * count
    case None => ScalarSize(t)
  }

  function Plus(a: U64, b: int): U64 {
    (a + b) % TWO_64
  }

  /** The reader of a byte memory, for Env.read. */
  function ReaderOf(mem: Bytes): (Addr, nat) -> Option<U64> {
    (addr: Addr, size: nat) => ReadScalar(mem, addr, size)
  }

  // lvalue_t and cdbg_expr_result_t
  datatype Lvalue = Lvalue(addr: Addr, size: nat, isSigned: bool, typ: string)
  datatype Value = Value(value: U64, isFloat: bool, isAddress: bool, typ: string)

  /** combine_binary; a shift count is taken modulo 64, as the processor does. */
  function Combine(l: U64, r: U64, op: ES.BinOp): Option<U64> {
    match op
    case ADD => Some((l + r) % TWO_64)
    case SUB => Some((l - r) % TWO_64)
    case MUL => Some((l * r) % TWO_64)
    case DIV => if r == 0 then None else Some(Quotient(l, r))
    case MOD => if r == 0 then None else Some(l % r)
    case SHL => Some(ShiftLeft(l, r % 64))
    case SHR => Some(Quotient(l, Power2(r % 64)))
    case LT => Some(Truth(l < r))
    case GT => Some(Truth(l > r))
    case LE => Some(Truth(l <= r))
    case GE => Some(Truth(l >= r))
    case EQ => Some(Truth(l == r))
    case NE => Some(Truth(l != r))
    case BAND => Some(Bitwise(AND, l, r))
    case BXOR => Some(Bitwise(XOR, l, r))
    case BOR => Some(Bitwise(OR, l, r))
    case LAND => Some(Truth(l != 0 && r != 0))
    case LOR => Some(Truth(l != 0 || r != 0))
  }

  function Quotient(l: U64, r: nat): U64
    requires r > 0
  {
    QuotientBound(l, r);
    l / r
  }

  lemma AtLeast(r: int, q: int)
    requires r > 0
    ensures if q < 0 then r * q <= -r else r * q >= q
  {
  }

  lemma QuotientBound(l: nat, r: nat)
    requires r > 0
    ensures l / r <= l
  {
    var q := l / r;
    assert l == r * q + l % r;
    AtLeast(r, q);
  }

  /** eval_as_pointer: the pointer and, if known, the type it points to. */
  function AsPointer(env: Env, e: ES.Expr): Option<(U64, string)>
    decreases e, 2
  {
    if e.Ident? then PointerNamed(env, e.name)
    else if IsPlace(e) then PointerIn(env, EvalLvalue(env, e))
    else
      match EvalValue(env, e)
      case None => None
      case Some(v) => Some((v.value, ""))
  }

  predicate IsPlace(e: ES.Expr) {
    e.Member? || e.Arrow? || e.Index? || e.Deref?
  }

  function PointerNamed(env: Env, name: string): Option<(U64, string)> {
    match env.variable(name)
    case None => None
    case Some((t, addr)) =>
      if !HasStar(t) then None
      else
        match env.read(addr, 8)
        case None => None
        case Some(ptr) => Some((ptr, PointeeType(t)))
  }

  function PointerIn(env: Env, lv: Option<Lvalue>): Option<(U64, string)> {
    match lv
    case None => None
    case Some(lv) =>
      if !HasStar(lv.typ) then None
      else
        match env.read(lv.addr, 8)
        case None => None
        case Some(ptr) => Some((ptr, StripStar(lv.typ)))
  }

  // The member case shared by '.' and '->'.
  function MemberOf(env: Env, base: Addr, t: string, name: string): Option<Lvalue> {
    match env.member(t, name)
    case None => None
    case Some((offset, mt)) => Some(Lvalue(Plus(base, offset), ScalarSize(mt), IsSignedType(mt), if mt != "" then mt else t))
  }

  /** resolve_subscript_element and what eval_lvalue makes of it. */
  function ElementOf(env: Env, name: string, index: U64): Option<Lvalue> {
    match env.variable(name)
    case None => None
    case Some((t, addr)) =>
      match env.arrayType(t)
      case Some((element, count)) =>
        if index >= count then None
        else Some(Lvalue(Plus(addr, index * ElementSize(env, element)), ElementSize(env, element), IsSignedType(element), element))
      case None =>
        if !HasStar(t) then None
        else
          match env.read(addr, 8)
          case None => None
          case Some(ptr) =>
            var element := PointeeType(t);
            Some(Lvalue(Plus(ptr, index * ElementSize(env, element)), ElementSize(env, element), IsSignedType(element), element))
  }

  function EvalLvalue(env: Env, e: ES.Expr): Option<Lvalue>
    decreases e, 0
  {
    match e
    case Ident(name) =>
      (match env.variable(name)
       case None => None
       case Some((t, addr)) =>
         if env.arrayType(t).Some? then None
         else Some(Lvalue(addr, VariableSize(env, t), IsSignedType(t), t)))
    case Deref(p) =>
      (match AsPointer(env, p)
       case None => None
       case Some((ptr, t)) =>
         Some(if t != "" then Lvalue(ptr, ElementSize(env, t), IsSignedType(t), t) else Lvalue(ptr, 8, false, "")))
    case Arrow(p, name) =>
      (match AsPointer(env, p)
       case None => None
       case Some((ptr, t)) => MemberOf(env, ptr, t, name))
    case Member(base, name) =>
      (match EvalLvalue(env, base)
       case None => None
       case Some(lv) => MemberOf(env, lv.addr, lv.typ, name))
    case Index(base, index) =>
      (match EvalValue(env, index)
       case None => None
       case Some(i) =>
         if base.Ident? then ElementOf(env, base.name, i.value)
         else
           match AsPointer(env, base)
           case None => None
           case Some((ptr, t)) =>
             var size := if t != "" then ElementSize(env, t) else 8;
             Some(Lvalue(Plus(ptr, i.value * size), size, IsSignedType(t), t)))
    case _ => None
  }

  function EvalValue(env: Env, e: ES.Expr): Option<Value>
    decreases e, 1
  {
    if IsPlace(e) then ValueIn(env, EvalLvalue(env, e))
    else
    match e
    case Num(v, isFloat) => Some(Value(v % TWO_64, isFloat, false, ""))
    case Ident(name) =>
      (match env.variable(name)
       case None => None
       case Some((t, addr)) => Loaded(env.read(addr, VariableSize(env, t)), t))
    case AddrOf(x) =>
      (match EvalLvalue(env, x)
       case None => None
       case Some(lv) => Some(Value(lv.addr, false, true, PointerTo(lv.typ))))
    case Unary(op, x) =>
      (match EvalValue(env, x)
       case None => None
       case Some(v) => Some(ApplyUnary(op, v)))
    case Binary(op, l, r) =>
      (match (EvalValue(env, l), EvalValue(env, r))
      case (Some(lv), Some(rv)) =>
        (match Combine(lv.value, rv.value, op)
         case None => None
         case Some(v) => Some(Value(v, false, false, "")))
      case _ => None)
    case _ => None
  }

  function Loaded(v: Option<U64>, t: string): Option<Value> {
    match v
    case None => None
    case Some(v) => Some(Value(v, false, false, t))
  }

  function ValueIn(env: Env, lv: Option<Lvalue>): Option<Value> {
    match lv
    case None => None
    case Some(lv) => Loaded(env.read(lv.addr, lv.size), lv.typ)
  }

  /** Negating a floating-point value flips the sign bit of its pattern. */
  function ApplyUnary(op: ES.UnOp, v: Value): Value {
    match op
    case POS => v
    case NEG =>
      if v.isFloat then Value((v.value + 0x8000_0000_0000_0000) % TWO_64, true, false, "")
      else Value((TWO_64 - v.value) % TWO_64, false, false, "")
    case NOT => Value(Truth(v.value == 0), false, false, "")
    case BNOT => Value(Complement(v.value), false, false, "")
  }

  // Laws.

  /** `p->m` and `(*p).m` are the same place, or both nothing. */
  lemma ArrowIsDerefMember(env: Env, p: ES.Expr, m: string)
    ensures EvalLvalue(env, ES.Arrow(p, m)) == EvalLvalue(env, ES.Member(ES.Deref(p), m))
  {
  }

  lemma PointeeHasNoStar(t: string)
    requires HasStar(t)
    ensures !HasStar(PointeeType(t)) && !HasStar(StripStar(t))
  {
    assert !HasStar(UpToStar(t));
  }

  /** A dereferenced pointer is never a pointer itself: type strings lose all their
      stars at once, so no `**p` evaluates. */
  lemma PointerToPointerLost(env: Env, p: ES.Expr)
    ensures AsPointer(env, ES.Deref(p)) == None
    ensures EvalLvalue(env, ES.Deref(ES.Deref(p))) == None && EvalValue(env, ES.Deref(ES.Deref(p))) == None
  {
    if AsPointer(env, p).Some? {
      PointeeTypeIsFlat(env, p);
    }
  }

  lemma PointeeTypeIsFlat(env: Env, p: ES.Expr)
    requires AsPointer(env, p).Some?
    ensures !HasStar(AsPointer(env, p).value.1)
  {
    if p.Ident? {
      PointeeHasNoStar(env.variable(p.name).value.0);
    } else if IsPlace(p) {
      PointeeHasNoStar(EvalLvalue(env, p).value.typ);
    }
  }

  predicate IsArrayName(env: Env, e: ES.Expr) {
    e.Ident? && env.variable(e.name).Some? && env.arrayType(env.variable(e.name).value.0).Some?
  }

  /** A place whose type has a star is a word wide. */
  lemma StarIsWordWide(env: Env, e: ES.Expr)
    requires EvalLvalue(env, e).Some? && HasStar(EvalLvalue(env, e).value.typ)
    ensures EvalLvalue(env, e).value.size == 8
  {
    match e {
      case Index(base, index) =>
        if base.Ident? {
          ElementWide(env, base.name, EvalValue(env, index).value.value);
        } else {
          PointeeTypeIsFlat(env, base);
        }
      case Deref(p) => PointeeTypeIsFlat(env, p);
      case _ =>
    }
  }

  lemma ElementWide(env: Env, name: string, index: U64)
    requires ElementOf(env, name, index).Some? && HasStar(ElementOf(env, name, index).value.typ)
    ensures ElementOf(env, name, index).value.size == 8
  {
    var t := env.variable(name).value.0;
    if env.arrayType(t).None? { PointeeHasNoStar(t); }
  }

  /** Whatever evaluates as a pointer has the value of `&*p`, and unless it names an
      array it has that value itself. */
  lemma AddressOfDeref(env: Env, p: ES.Expr)
    requires AsPointer(env, p).Some?
    ensures var v := EvalValue(env, ES.AddrOf(ES.Deref(p)));
            v.Some? && v.value.value == AsPointer(env, p).value.0 && v.value.isAddress
    ensures !IsArrayName(env, p) ==>
            EvalValue(env, p).Some? && EvalValue(env, p).value.value == EvalValue(env, ES.AddrOf(ES.Deref(p))).value.value
  {
    if IsPlace(p) {
      StarIsWordWide(env, p);
    }
  }

  /** `p[0]` and `*p` for a pointer `p` that names no array: the same address always,
      and the same place exactly when the type pointed to is known. */
  lemma IndexZeroIsDeref(env: Env, p: ES.Expr, isFloat: bool)
    requires AsPointer(env, p).Some? && !IsArrayName(env, p)
    ensures var at, deref := EvalLvalue(env, ES.Index(p, ES.Num(0, isFloat))), EvalLvalue(env, ES.Deref(p));
            at.Some? && deref.Some? && at.value.addr == deref.value.addr
            && (at == deref <==> AsPointer(env, p).value.1 != "")
  {
    if p.Ident? {
      NamedElementZero(env, p.name);
    } else {
      OtherElementZero(env, p, isFloat);
    }
    assert IsSignedType("");
  }

  lemma OtherElementZero(env: Env, p: ES.Expr, isFloat: bool)
    requires AsPointer(env, p).Some? && !p.Ident?
    ensures var (ptr, t) := AsPointer(env, p).value;
            EvalLvalue(env, ES.Index(p, ES.Num(0, isFloat)))
            == Some(Lvalue(ptr, if t != "" then ElementSize(env, t) else 8, IsSignedType(t), t))
  {
    assert EvalValue(env, ES.Num(0, isFloat)).value.value == 0;
    PlusNothing(AsPointer(env, p).value.0);
  }

  lemma PlusNothing(a: U64)
    ensures forall size: nat :: Plus(a, 0 * size) == a
  {
  }

  lemma NamedElementZero(env: Env, name: string)
    requires AsPointer(env, ES.Ident(name)).Some? && !IsArrayName(env, ES.Ident(name))
    ensures var (ptr, t) := AsPointer(env, ES.Ident(name)).value;
            ElementOf(env, name, 0) == Some(Lvalue(ptr, ElementSize(env, t), IsSignedType(t), t))
  {
  }

  /** Adding to a pointer is not scaled by the size of what it points to, and indexing
      is: `*(p + i)` is at the address of `p[i]` exactly when `i` times the size less one
      vanishes modulo 2^64, and never the same place. */
  lemma SumIsUnscaled(env: Env, p: ES.Expr, i: ES.Expr)
    requires AsPointer(env, p).Some? && !IsArrayName(env, p) && AsPointer(env, p).value.1 != "" && EvalValue(env, i).Some?
    ensures var size, index := ElementSize(env, AsPointer(env, p).value.1), EvalValue(env, i).value.value;
            var element, sum := EvalLvalue(env, ES.Index(p, i)), EvalLvalue(env, ES.Deref(ES.Binary(ES.ADD, p, i)));
            element.Some? && sum.Some? && element != sum
            && (element.value.addr == sum.value.addr <==> index * (size - 1) % TWO_64 == 0)
  {
    var (ptr, t) := AsPointer(env, p).value;
    IndexAt(env, p, i);
    SumAt(env, p, i);
    SumsAgree(ptr, EvalValue(env, i).value.value, ElementSize(env, t));
  }

  lemma IndexAt(env: Env, p: ES.Expr, i: ES.Expr)
    requires AsPointer(env, p).Some? && !IsArrayName(env, p) && AsPointer(env, p).value.1 != "" && EvalValue(env, i).Some?
    ensures var (ptr, t) := AsPointer(env, p).value;
            EvalLvalue(env, ES.Index(p, i)) ==
            Some(Lvalue(Plus(ptr, EvalValue(env, i).value.value * ElementSize(env, t)), ElementSize(env, t), IsSignedType(t), t))
  {
    var (ptr, t) := AsPointer(env, p).value;
    var index := EvalValue(env, i).value.value;
    if p.Ident? {
      assert ElementOf(env, p.name, index)
             == Some(Lvalue(Plus(ptr, index * ElementSize(env, t)), ElementSize(env, t), IsSignedType(t), t));
    }
  }

  lemma SumAt(env: Env, p: ES.Expr, i: ES.Expr)
    requires AsPointer(env, p).Some? && !IsArrayName(env, p) && EvalValue(env, i).Some?
    ensures EvalLvalue(env, ES.Deref(ES.Binary(ES.ADD, p, i)))
            == Some(Lvalue(Plus(AsPointer(env, p).value.0, EvalValue(env, i).value.value), 8, false, ""))
  {
    AddressOfDeref(env, p);
    var sum := ES.Binary(ES.ADD, p, i);
    assert EvalValue(env, sum) == Some(Value(Plus(AsPointer(env, p).value.0, EvalValue(env, i).value.value), false, false, ""));
    assert AsPointer(env, sum) == Some((EvalValue(env, sum).value.value, ""));
  }

  lemma SumsAgree(ptr: U64, index: U64, size: nat)
    ensures Plus(ptr, index * size) == Plus(ptr, index) <==> index * (size - 1) % TWO_64 == 0
  {
    assert index * size == index + index * (size - 1);
    SameRemainder(ptr + index, index * (size - 1));
  }

  /** Two members of one struct are as far apart as the type table puts them, and an
      access through the pointer to it finds them where the dot does. */
  lemma MembersApart(env: Env, base: ES.Expr, m: string, n: string)
    requires EvalLvalue(env, ES.Member(base, m)).Some? && EvalLvalue(env, ES.Member(base, n)).Some?
    ensures EvalLvalue(env, base).Some?
    ensures var t := EvalLvalue(env, base).value.typ;
            env.member(t, m).Some? && env.member(t, n).Some?
            && (EvalLvalue(env, ES.Member(base, m)).value.addr - EvalLvalue(env, ES.Member(base, n)).value.addr) % TWO_64
               == (env.member(t, m).value.0 - env.member(t, n).value.0) % TWO_64
            && (EvalLvalue(env, ES.Member(base, m)).value.addr - EvalLvalue(env, base).value.addr) % TWO_64 == env.member(t, m).value.0
  {
    MemberAt(env, base, m);
    MemberAt(env, base, n);
    hide EvalLvalue, Plus;
    var lv := EvalLvalue(env, base).value;
    PlusNothing(lv.addr);
    SumsApart(lv.addr, env.member(lv.typ, m).value.0, env.member(lv.typ, n).value.0);
    SumsApart(lv.addr, env.member(lv.typ, m).value.0, 0);
    assert Plus(lv.addr, 0 * 1) == lv.addr;
  }

  lemma MemberAt(env: Env, base: ES.Expr, m: string)
    requires EvalLvalue(env, ES.Member(base, m)).Some?
    ensures EvalLvalue(env, base).Some?
    ensures var lv := EvalLvalue(env, base).value;
            env.member(lv.typ, m).Some? && EvalLvalue(env, ES.Member(base, m)).value.addr == Plus(lv.addr, env.member(lv.typ, m).value.0)
  {
  }

  lemma SumsApart(a: U64, i: nat, j: nat)
    ensures (Plus(a, i) - Plus(a, j)) % TWO_64 == (i - j) % TWO_64
  {
    SameRemainder(Plus(a, i) - Plus(a, j), (i - j) - (Plus(a, i) - Plus(a, j)));
  }

  /** An array has exactly as many elements as declared, the first where the array is,
      and two of them are apart by their size times the difference of their indices. */
  lemma ElementsApart(env: Env, name: string, i: ES.Expr, j: ES.Expr)
    requires IsArrayName(env, ES.Ident(name)) && EvalValue(env, i).Some? && EvalValue(env, j).Some?
    ensures var (t, addr) := env.variable(name).value;
            var (element, count) := env.arrayType(t).value;
            var x, y := EvalValue(env, i).value.value, EvalValue(env, j).value.value;
            var at, other := EvalLvalue(env, ES.Index(ES.Ident(name), i)), EvalLvalue(env, ES.Index(ES.Ident(name), j));
            (at.Some? <==> x < count)
            && (at.Some? && x == 0 ==> at.value.addr == addr)
            && (at.Some? && other.Some? ==>
                  at.value.size == other.value.size == ElementSize(env, element)
                  && (at.value.addr - other.value.addr) % TWO_64 == (x - y) * at.value.size % TWO_64)
  {
    var (t, addr) := env.variable(name).value;
    var (element, count) := env.arrayType(t).value;
    var x, y := EvalValue(env, i).value.value, EvalValue(env, j).value.value;
    ElementAt(env, name, x);
    ElementAt(env, name, y);
    ScaledApart(addr, x, y, ElementSize(env, element));
  }

  lemma ElementAt(env: Env, name: string, x: U64)
    requires IsArrayName(env, ES.Ident(name))
    ensures var (t, addr) := env.variable(name).value;
            var (element, count) := env.arrayType(t).value;
            ElementOf(env, name, x) ==
            if x >= count then None
            else Some(Lvalue(Plus(addr, x * ElementSize(env, element)), ElementSize(env, element), IsSignedType(element), element))
  {
  }

  lemma ScaledApart(a: U64, x: nat, y: nat, size: nat)
    ensures (Plus(a, x * size) - Plus(a, y * size)) % TWO_64 == (x - y) * size % TWO_64
    ensures x == 0 ==> Plus(a, x * size) == a
  {
    assert x * size - y * size == (x - y) * size;
    SumsApart(a, x * size, y * size);
  }

  /** Setting a variable and printing it: the value cut to the variable's size. */
  lemma SetVariableThenPrint(env: Env, mem: Bytes, name: string, v: U64)
    requires EvalLvalue(env, ES.Ident(name)).Some?
    requires var lv := EvalLvalue(env, ES.Ident(name)).value; WriteScalar(mem, lv.addr, lv.size, v).Some?
    ensures var lv := EvalLvalue(env, ES.Ident(name)).value;
            var mem' := WriteScalar(mem, lv.addr, lv.size, v).value;
            EvalValue(env.(read := ReaderOf(mem')), ES.Ident(name))
            == Some(Value(v % Power256(Width(lv.size)), false, false, lv.typ))
  {
    var lv := EvalLvalue(env, ES.Ident(name)).value;
    SetThenPrint(mem, lv.addr, lv.size, v);
  }

  lemma {:induction false} TrimTwice(t: string)
    ensures TrimRight(TrimRight(t)) == TrimRight(t) && TrimRight(t + " ") == TrimRight(t)
  {
    assert (t + " ")[..|t|] == t;
    if t != "" && t[|t| - 1] == ' ' { TrimTwice(t[..|t| - 1]); }
  }

  lemma {:induction false} UpToAddedStar(t: string, rest: string)
    requires !HasStar(t)
    ensures UpToStar(t + "*" + rest) == t
  {
    if t == "" {
      assert t + "*" + rest == "*" + rest;
    } else {
      UpToAddedStar(t[1..], rest);
      assert (t + "*" + rest)[1..] == t[1..] + "*" + rest;
    }
  }

  /** Taking the address of something and dereferencing it keeps its type, up to
      trailing blanks; a type with a star comes back without its stars. */
  lemma StripInvertsPointerTo(t: string)
    requires t != "" && !HasStar(t)
    ensures StripStar(PointerTo(t)) == TrimRight(t)
  {
    var base := TrimRight(t) + " ";
    assert PointerTo(t) == base + "*" + "";
    assert PointerTo(t)[|base|] == '*';
    UpToAddedStar(base, "");
    TrimTwice(TrimRight(t));
    TrimTwice(t);
  }

  // strip_pointer_star
  method StripPointerStar(t: string) returns (out: string)
    ensures out == StripStar(t)
  {
    var star := 0;
    while star < |t| && t[star] != '*'
      invariant 0 <= star <= |t|
      invariant '*' !in t[..star]
    {
      star := star + 1;
    }
    if star == |t| {
      assert t[..star] == t;
      return "";
    }
    var len := star;
    while len > 0 && t[len - 1] == ' '
      invariant 0 <= len <= star
      invariant TrimRight(t[..len]) == TrimRight(t[..star])
    {
      assert t[..len][..len - 1] == t[..len - 1];
      len := len - 1;
    }
    out := t[..len];
    UpToAddedStar(t[..star], t[star + 1..]);
    assert t == t[..star] + "*" + t[star + 1..];
  }

  // make_pointer_type
  method MakePointerType(base: string) returns (out: string)
    ensures out == PointerTo(base)
  {
    if base == "" { return ""; }
    var len := |base|;
    assert base[..len] == base;
    while len > 0 && base[len - 1] == ' '
      invariant 0 <= len <= |base|
      invariant TrimRight(base[..len]) == TrimRight(base)
    {
      assert base[..len][..len - 1] == base[..len - 1];
      len := len - 1;
    }
    out := base[..len] + " *";
  }
}
