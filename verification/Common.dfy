/** Shared result types and machine integers. */
module Common {

  const U64_MAX: int := 0xFFFF_FFFF_FFFF_FFFF

  /** The raw timestamps and counters of the source are unsigned 64-bit. */
  type U64 = x: int | 0 <= x <= U64_MAX

  const U32_LIMIT: int := 0x1_0000_0000

  type U32 = x: int | 0 <= x < U32_LIMIT

  type U8 = x: int | 0 <= x < 256

  datatype Option<+T> = None | Some(value: T)

  /** The error kinds that the modelled code builds itself. `Inner` is whatever an inner
      decoder or a reader reports. */
  datatype Error =
    | BadArgument(param: string)
    | Conversion
    | Utf8
    | Decode
    | Encode
    | Inner(code: int)

  /** What a call that can panic does. */
  datatype Outcome<+T> = Returned(value: T) | Panicked

  datatype Result<+T> = Ok(value: T) | Err(error: Error) {

    predicate IsFailure() {
      Err?
    }

    function PropagateFailure<U>(): Result<U>
      requires Err?
    {
      Err(error)
    }

    function Extract(): T
      requires Ok?
    {
      value
    }
  }

  // ---------- sequences ----------

  lemma Regroup<T>(a: seq<T>, b: seq<T>, c: seq<T>)
    ensures a + b + c == a + (b + c)
  {
  }

  lemma MoveHead<T>(a: seq<T>, b: seq<T>)
    requires b != []
    ensures a + [b[0]] + b[1..] == a + b
  {
  }

  lemma AppendNothing<T>(a: seq<T>)
    ensures a + [] == a
  {
  }

  lemma KeepsPrefix<T>(a: seq<T>, b: seq<T>, c: seq<T>)
    ensures a + b <= a + (b + c)
  {
  }
}
