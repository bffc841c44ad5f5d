/**
 * The course record shared by the catalog, the student's registered list and
 * drop requests, and the order-keeping relation that every `filter` over such
 * a list satisfies.
 */
module CourseModel {

  /** A catalog offering, with the fields the front end reads.  Times are the
      `"HH:MM"` strings the course form stores; `day` is a weekday name. */
  datatype Course = Course(
    id: int,
    courseCode: string,
    courseName: string,
    instructor: string,
    credits: int,
    day: string,
    startTime: string,
    endTime: string)

  /** `list.some((c) => c.id === id)`. */
  predicate HasId(list: seq<Course>, id: int) {
    exists i :: 0 <= i < |list| && list[i].id == id
  }

  /** `a` is `b` with some elements left out, the rest in their original order. */
  predicate IsSubsequence<T(==)>(a: seq<T>, b: seq<T>)
    decreases |b|
  {
    if a == [] then true
    else if b == [] then false
    else (a[0] == b[0] && IsSubsequence(a[1..], b[1..])) || IsSubsequence(a, b[1..])
  }

  /** Every element of a subsequence is an element of the whole sequence. */
  lemma {:induction false} SubsequenceMembers<T>(a: seq<T>, b: seq<T>)
    requires IsSubsequence(a, b)
    ensures forall x :: x in a ==> x in b
    ensures |a| <= |b|
    decreases |b|
  {
    if a != [] {
      if a[0] == b[0] && IsSubsequence(a[1..], b[1..]) {
        SubsequenceMembers(a[1..], b[1..]);
        forall x | x in a ensures x in b {
          if x != a[0] {
            assert x in a[1..];
          }
        }
      } else {
        SubsequenceMembers(a, b[1..]);
      }
    }
  }

  /** Prepending the same element keeps the relation. */
  lemma SubsequenceCons<T>(x: T, a: seq<T>, b: seq<T>)
    requires IsSubsequence(a, b)
    ensures IsSubsequence([x] + a, [x] + b)
  {
    assert ([x] + a)[1..] == a && ([x] + b)[1..] == b;
  }

  /** Prepending an element to the whole sequence only keeps the relation. */
  lemma SubsequenceSkip<T>(x: T, a: seq<T>, b: seq<T>)
    requires IsSubsequence(a, b)
    ensures IsSubsequence(a, [x] + b)
  {
    assert ([x] + b)[1..] == b;
  }
}
