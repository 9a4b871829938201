/**
 * The scalar values that chunk and document metadata hold: integers and
 * strings, with Python's truthiness and `str()`.
 */
module PyValue {
  import opened Decimal

  datatype MetaValue = IntVal(i: int) | StrVal(s: string)
  {
    /** `bool(v)`: zero and the empty string are falsy. */
    predicate Truthy() {
      match this
      case IntVal(i) => i != 0
      case StrVal(s) => s != []
    }
  }

  /** `str(v)`: an integer in decimal with a leading `-` when negative; a string as it is. */
  function Str(v: MetaValue): (r: string)
    ensures v.StrVal? ==> r == v.s
    ensures v.IntVal? ==> |r| >= 1 && (r[0] == '-' <==> v.i < 0)
  {
    match v
    case IntVal(i) => if i < 0 then "-" + NatToString(-i) else NatToString(i)
    case StrVal(s) => s
  }

  /** `str(n)` of a non-negative integer reads back as `n`. */
  lemma StrOfNat(n: nat)
    ensures Str(IntVal(n)) == NatToString(n)
    ensures AllDigits(Str(IntVal(n))) && DigitsValue(Str(IntVal(n))) == n
  {
    ParseRender(n);
  }
}
