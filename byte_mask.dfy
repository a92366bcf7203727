/**
 * A byte pattern for one position of a signature (Models/ByteMask.cs). The C# struct wraps a
 * predicate; the model names each way the code builds one, and `IsMatched` gives their meaning.
 */
module ByteMasks {
  import opened Binary
  import opened Wrappers

  datatype ByteMask =
    | Unset                      // `default(ByteMask)`: no predicate at all
    | AnyByte                    // `ByteMask.Any`
    | Range(min: byte, max: byte)
    | OneOf(values: set<byte>)
    | Single(value: byte)

  /** Whether the mask accepts `b`; a mask without a predicate accepts nothing. */
  predicate IsMatched(m: ByteMask, b: byte)
    ensures IsMatched(m, b) ==> m != Unset
    ensures m == AnyByte || m == Range(0, 255) ==> IsMatched(m, b)
  {
    match m
    case Unset => false
    case AnyByte => true
    case Range(lo, hi) => lo <= b <= hi
    case OneOf(vs) => b in vs
    case Single(v) => b == v
  }

  lemma DefaultMatchesNothing(b: byte)
    ensures !IsMatched(Unset, b)
  {
  }

  function Any(): (m: ByteMask)
    ensures forall b: byte :: IsMatched(m, b)
  {
    AnyByte
  }

  /** `ByteMask.Between`: throws when `min > max`, else accepts exactly `min..max`. */
  function Between(min: byte, max: byte): (r: Result<ByteMask, Exception>)
    ensures r.Failure? <==> min > max
    ensures r.Failure? ==> r.error == ArgumentException
    ensures r.Success? ==> forall b: byte :: IsMatched(r.value, b) <==> min <= b && b <= max
  {
    if min > max then Failure(ArgumentException) else Success(Range(min, max))
  }

  /** `ByteMask.Values`: a null array makes the `HashSet` constructor throw. */
  function Values(possibleValues: Option<seq<byte>>): (r: Result<ByteMask, Exception>)
    ensures r.Failure? <==> possibleValues.None?
    ensures r.Failure? ==> r.error == ArgumentNullException
    ensures r.Success? ==> forall b: byte :: IsMatched(r.value, b) <==> b in possibleValues.value
  {
    match possibleValues
    case None => Failure(ArgumentNullException)
    case Some(vs) => Success(OneOf(set i | 0 <= i < |vs| :: vs[i]))
  }

  function Exact(value: byte): (m: ByteMask)
    ensures forall b: byte :: IsMatched(m, b) <==> b == value
  {
    Single(value)
  }

  /** The implicit conversion from `int`: the unchecked `(byte)` cast keeps the low 8 bits. */
  function FromInt(value: int): (m: ByteMask)
    ensures forall b: byte :: IsMatched(m, b) <==> b as int == value % 256
    ensures 0 <= value < 256 ==> forall b: byte :: IsMatched(m, b) <==> b as int == value
  {
    Exact((value % 256) as byte)
  }

  function FromByte(value: byte): (m: ByteMask)
    ensures forall b: byte :: IsMatched(m, b) <==> b == value
  {
    Exact(value)
  }

  function FromBytes(values: Option<seq<byte>>): (r: Result<ByteMask, Exception>)
    ensures r.Failure? <==> values.None?
    ensures r.Success? ==> forall b: byte :: IsMatched(r.value, b) <==> b in values.value
  {
    Values(values)
  }

  /** The implicit conversion from `byte?`: null means any byte. */
  function FromNullableByte(value: Option<byte>): (m: ByteMask)
    ensures value.None? ==> forall b: byte :: IsMatched(m, b)
    ensures value.Some? ==> forall b: byte :: IsMatched(m, b) <==> b == value.value
  {
    if value.Some? then Exact(value.value) else Any()
  }
}
