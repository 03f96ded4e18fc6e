/** The RSP vector unit, one lane at a time: what each compute instruction does to a lane of its destination,
    of the 48-bit accumulator and of the flags (src/rcp/rsp_vector.cpp:525-1035, include/rcp/rsp.h:235-249). */
module VuLane {
  import opened Bits

  type half = x: nat | x < 0x1_0000

  /** The function codes; Zero stands for every reserved one. */
  datatype Funct =
    | Mulf | Mulu | Rndp | Mulq | Mudl | Mudm | Mudn | Mudh
    | Macf | Macu | Rndn | Macq | Madl | Madm | Madn | Madh
    | Add | Sub | Abs | Addc | Subc | Sar
    | Lt | Eq | Ne | Ge | Cl | Ch | Cr | Mrg
    | And | Nand | Or | Nor | Xor | Nxor
    | Rcp | Rcpl | Rcph | Mov | Rsq | Rsql | Rsqh | Nop | Zero

  function FunctOf(code: nat): Funct {
    match code
    case 0x00 => Mulf case 0x01 => Mulu case 0x02 => Rndp case 0x03 => Mulq
    case 0x04 => Mudl case 0x05 => Mudm case 0x06 => Mudn case 0x07 => Mudh
    case 0x08 => Macf case 0x09 => Macu case 0x0A => Rndn case 0x0B => Macq
    case 0x0C => Madl case 0x0D => Madm case 0x0E => Madn case 0x0F => Madh
    case 0x10 => Add case 0x11 => Sub case 0x13 => Abs case 0x14 => Addc case 0x15 => Subc case 0x1D => Sar
    case 0x20 => Lt case 0x21 => Eq case 0x22 => Ne case 0x23 => Ge
    case 0x24 => Cl case 0x25 => Ch case 0x26 => Cr case 0x27 => Mrg
    case 0x28 => And case 0x29 => Nand case 0x2A => Or case 0x2B => Nor case 0x2C => Xor case 0x2D => Nxor
    case 0x30 => Rcp case 0x31 => Rcpl case 0x32 => Rcph case 0x33 => Mov
    case 0x34 => Rsq case 0x35 => Rsql case 0x36 => Rsqh case 0x37 => Nop
    case _ => Zero
  }

  /** One lane of everything an instruction may change: the destination, the accumulator's three slices, the
      low and high halves of VCC and VCO, and VCE. */
  datatype Lane = Lane(d: half, h: half, m: half, l: half, ccLo: bool, ccHi: bool, coLo: bool, coHi: bool, ce: bool)

  function H(x: int): half { x % 0x1_0000 }
  function S(x: half): int { if x < 0x8000 then x else x - 0x1_0000 }
  function Not(x: half): half { 0xFFFF - x }

  const ACC: int := 0x1_0000_0000_0000

  /** acc_get and acc_set. */
  function Acc(c: Lane): int {
    var raw := c.h * 0x1_0000_0000 + c.m * 0x1_0000 + c.l;
    if raw < 0x8000_0000_0000 then raw else raw - ACC
  }

  function SetAcc(c: Lane, v: int): Lane { c.(h := H(v / 0x1_0000_0000), m := H(v / 0x1_0000), l := H(v)) }

  function ClampSigned(x: int): half { if x > 32767 then 32767 else if x < -32768 then 0x8000 else H(x) }
  function ClampUnsigned(x: int): half { if x < 0 then 0 else if x > 32767 then 0xFFFF else x }

  /** The low slice, or a saturated one when the high slices are not its sign extension. */
  function ClampAccLow(acc: int): half {
    var hi, mid := S(H(acc / 0x1_0000_0000)), H(acc / 0x1_0000);
    if (hi == 0 && mid < 0x8000) || (hi == -1 && mid >= 0x8000) then H(acc) else if hi < 0 then 0 else 0xFFFF
  }

  /** The accumulator set to a value, and the destination to a function of what it then holds. */
  function WithHigh(c: Lane, v: int): Lane { var c' := SetAcc(c, v); c'.(d := ClampSigned(Acc(c') / 0x1_0000)) }
  function WithHighUnsigned(c: Lane, v: int): Lane { var c' := SetAcc(c, v); c'.(d := ClampUnsigned(Acc(c') / 0x1_0000)) }
  function WithLow(c: Lane, v: int): Lane { var c' := SetAcc(c, v); c'.(d := ClampAccLow(Acc(c'))) }

  function Multiply(f: Funct, s: half, t: half, c: Lane): Lane {
    match f
    case Mulf => WithHigh(c, 2 * (S(s) * S(t)) + 0x8000)
    case Mulu => WithHighUnsigned(c, 2 * (S(s) * S(t)) + 0x8000)
    case Macf => WithHigh(c, Acc(c) + 2 * (S(s) * S(t)))
    case Macu => WithHighUnsigned(c, Acc(c) + 2 * (S(s) * S(t)))
    case Mudl => WithLow(c, s * t / 0x1_0000)
    case Madl => WithLow(c, s * t / 0x1_0000 + Acc(c))
    case Mudm => WithHigh(c, S(s) * t)
    case Madm => WithHigh(c, S(s) * t + Acc(c))
    case Mudn => WithLow(c, s * S(t))
    case Madn => WithLow(c, s * S(t) + Acc(c))
    case Mudh => WithHigh(c, S(s) * S(t) * 0x1_0000)
    case _ => WithHigh(c, S(s) * S(t) * 0x1_0000 + Acc(c))
  }

  predicate IsMultiply(f: Funct) {
    f.Mulf? || f.Mulu? || f.Macf? || f.Macu? || f.Mudl? || f.Madl? || f.Mudm? || f.Madm?
    || f.Mudn? || f.Madn? || f.Mudh? || f.Madh?
  }

  function ClearLow4(x: half): half { x / 16 * 16 }

  function WithHalved(c: Lane, p: int, low: half): Lane {
    SetAcc(c, p * 0x1_0000 + low).(d := ClearLow4(ClampSigned(p / 2)))
  }

  /** VMULQ rounds a negative product up; VMACQ moves the product towards zero unless its bit 5 is set. */
  function RoundedUp(p: int): int { if p < 0 then p + 31 else p }

  function TowardsZero(p: int): int {
    if p / 32 % 2 == 1 then p else if p < 0 then p + 32 else if p >= 32 then p - 32 else p
  }

  /** VRNDP, VRNDN, VMULQ and VMACQ, which only the scalar path has. `odd` is the low bit of the vs field. */
  function Mpeg(f: Funct, odd: bool, s: half, t: half, c: Lane): Lane {
    var product := if odd then S(t) * 0x1_0000 else S(t);
    match f
    case Rndp => WithHigh(c, if Acc(c) >= 0 then Acc(c) + product else Acc(c))
    case Rndn => WithHigh(c, if Acc(c) < 0 then Acc(c) + product else Acc(c))
    case Mulq => WithHalved(c, RoundedUp(S(s) * S(t)), 0)
    case _ => WithHalved(c, TowardsZero(Acc(c) / 0x1_0000), c.l)
  }

  predicate IsMpeg(f: Funct) { f.Rndp? || f.Rndn? || f.Mulq? || f.Macq? }

  function Both(c: Lane, r: half): Lane { c.(d := r, l := r) }

  function Arithmetic(f: Funct, s: half, t: half, c: Lane): Lane {
    match f
    case Add => var r := S(s) + S(t) + Odd(c.coLo); c.(l := H(r), d := ClampSigned(r))
    case Sub => var r := S(s) - S(t) - Odd(c.coLo); c.(l := H(r), d := ClampSigned(r))
    case Abs =>
      if S(s) < 0 then
        (if t == 0x8000 then c.(d := 0x7FFF, l := 0x8000) else Both(c, H(-S(t))))
      else if s == 0 then Both(c, 0) else Both(c, t)
    case Addc => Both(c, H(s + t)).(coLo := s + t >= 0x1_0000, coHi := false)
    case _ => Both(c, H(s - t)).(coLo := s < t, coHi := s != t)
  }

  predicate IsArithmetic(f: Funct) { f.Add? || f.Sub? || f.Abs? || f.Addc? || f.Subc? }

  function Logic(f: Funct, s: half, t: half): half {
    match f
    case And => H(Bits.And(s, t)) case Nand => Not(H(Bits.And(s, t)))
    case Or => H(Bits.Or(s, t)) case Nor => Not(H(Bits.Or(s, t)))
    case Xor => H(Bits.Xor(s, t)) case _ => Not(H(Bits.Xor(s, t)))
  }

  predicate IsLogic(f: Funct) { f.And? || f.Nand? || f.Or? || f.Nor? || f.Xor? || f.Nxor? }

  function Compare(f: Funct, s: half, t: half, c: Lane): Lane {
    var cond :=
      match f
      case Lt => S(s) < S(t) || (s == t && c.coLo && c.coHi)
      case Eq => s == t && !c.coHi
      case Ne => s != t || c.coHi
      case _ => S(s) > S(t) || (s == t && (!c.coLo || !c.coHi));
    Both(c, if cond then s else t).(ccLo := cond)
  }

  predicate IsCompare(f: Funct) { f.Lt? || f.Eq? || f.Ne? || f.Ge? }

  function ClipHigh(s: half, t: half, c: Lane): Lane {
    if (S(s) < 0) != (S(t) < 0) then
      var r := S(H(S(s) + S(t)));
      Both(c, if r <= 0 then H(-S(t)) else s)
      .(ccLo := r <= 0, ccHi := S(t) < 0, coLo := true, coHi := r != 0 && s != Not(t), ce := r == -1)
    else
      var r := S(H(S(s) - S(t)));
      Both(c, if r >= 0 then t else s)
      .(ccLo := S(t) < 0, ccHi := r >= 0, coLo := false, coHi := r != 0 && s != Not(t), ce := false)
  }

  function ClipLow(s: half, t: half, c: Lane): Lane {
    if c.coLo then
      var sum := s + t;
      var clamped, overflow := H(sum), sum != H(sum);
      var lo := if c.coHi then c.ccLo else if c.ce then clamped == 0 || !overflow else clamped == 0 && !overflow;
      Both(c, if lo then H(0 - t) else s).(ccLo := lo)
    else
      var hi := if c.coHi then c.ccHi else s >= t;
      Both(c, if hi then t else s).(ccHi := hi)
  }

  /** VCR tests bit 15 of a sum that the source does not narrow first. */
  function ClipCrimp(s: half, t: half, c: Lane): Lane {
    var differ := (s >= 0x8000) != (t >= 0x8000);
    var gte := S(t) <= if differ then -1 else S(s);
    var lte := ((if differ then s else 0) + t) / 0x8000 % 2 == 1;
    var check := if differ then lte else gte;
    Both(c, if check then (if differ then Not(t) else t) else s).(ccLo := lte, ccHi := gte)
  }

  function Slice(element: nat, c: Lane): half {
    if element == 8 then c.h else if element == 9 then c.m else if element == 10 then c.l else 0
  }

  /** One turn of an instruction's loop over the lanes. The reciprocals and VMOV write a single destination
      lane, outside the loop. */
  function Scalar(f: Funct, element: nat, odd: bool, s: half, t: half, c: Lane): Lane {
    if IsMultiply(f) then Multiply(f, s, t, c)
    else if IsMpeg(f) then Mpeg(f, odd, s, t, c)
    else if IsArithmetic(f) then Arithmetic(f, s, t, c)
    else if IsLogic(f) then Both(c, Logic(f, s, t))
    else if IsCompare(f) then Compare(f, s, t, c)
    else match f
      case Sar => c.(d := Slice(element, c))
      case Ch => ClipHigh(s, t, c)
      case Cl => ClipLow(s, t, c)
      case Cr => ClipCrimp(s, t, c)
      case Mrg => Both(c, if c.ccLo then s else t)
      case Nop => c
      case Zero => c.(l := H(s + t), d := 0)
      case _ => c.(l := t)
  }

  predicate ClearsVco(f: Funct) { f.Add? || f.Sub? || IsCompare(f) || f.Cl? || f.Cr? || f.Mrg? }
  predicate ClearsVce(f: Funct) { f.Cl? || f.Cr? }

  /** What the instruction does to the flags after the loop. */
  function Finish(f: Funct, c: Lane): Lane {
    var c := if IsCompare(f) then c.(ccHi := false) else c;
    var c := if ClearsVco(f) then c.(coLo := false, coHi := false) else c;
    if ClearsVce(f) then c.(ce := false) else c
  }
}
