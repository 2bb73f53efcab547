/** Failure-compatible results shared by the other modules. */
module Prelude {

  datatype Option<+T> = None | Some(value: T)

  /** `Err` stands for an exception that leaves the C++ function, or for a
      position past the end of the buffer. */
  datatype Result<+T> = Ok(value: T) | Err(reason: string)

  /** `part` stands at `pos`, whatever comes before and after it. */
  predicate At<T(==)>(input: seq<T>, pos: nat, part: seq<T>) {
    pos + |part| <= |input| && forall k :: 0 <= k < |part| ==> input[pos + k] == part[k]
  }

  lemma AtIsSlice<T>(input: seq<T>, pos: nat, part: seq<T>)
    ensures At(input, pos, part) <==> pos + |part| <= |input| && input[pos..pos + |part|] == part
  {
    if pos + |part| <= |input| && input[pos..pos + |part|] == part {
      forall k | 0 <= k < |part|
        ensures input[pos + k] == part[k]
      {
        assert input[pos..pos + |part|][k] == part[k];
      }
    }
  }

  lemma AtConcat<T>(input: seq<T>, pos: nat, a: seq<T>, b: seq<T>)
    ensures At(input, pos, a + b) <==> At(input, pos, a) && At(input, pos + |a|, b)
  {
    if At(input, pos, a + b) {
      forall k | 0 <= k < |a|
        ensures input[pos + k] == a[k]
      {
        assert (a + b)[k] == a[k];
      }
      forall k | 0 <= k < |b|
        ensures input[pos + |a| + k] == b[k]
      {
        assert (a + b)[|a| + k] == b[k];
      }
    }
  }

  lemma AtStart<T>(input: seq<T>, pos: nat, part: seq<T>, k: nat)
    requires At(input, pos, part) && k < |part|
    ensures pos + k < |input| && input[pos + k] == part[k]
  {
  }

  lemma AtInContext<T>(pre: seq<T>, part: seq<T>, suf: seq<T>)
    ensures At(pre + part + suf, |pre|, part)
  {
  }
}
