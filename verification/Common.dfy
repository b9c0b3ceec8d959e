/** Definitions shared by the string codecs. */
module Common {

  datatype Option<T> = None | Some(value: T)

  /** Size of every string buffer of the Axel programs, terminator included. */
  const MAX_STRING: nat := 1024

  /** strchr: the first occurrence, or the length. */
  function IndexOf<T(==)>(s: seq<T>, c: T): (k: nat)
    ensures k <= |s| && (k < |s| ==> s[k] == c)
    ensures forall i :: 0 <= i < k ==> s[i] != c
  {
    if s == [] || s[0] == c then 0 else 1 + IndexOf(s[1..], c)
  }

  lemma IndexOfIs<T>(s: seq<T>, c: T, k: nat)
    requires k <= |s| && (k < |s| ==> s[k] == c)
    requires forall i :: 0 <= i < k ==> s[i] != c
    ensures IndexOf(s, c) == k
  {
    var j := IndexOf(s, c);
  }

  /** Everything in front of the first c; with the NUL, the string a buffer holds. */
  function Before<T(==)>(s: seq<T>, c: T): seq<T> { s[..IndexOf(s, c)] }

  lemma BeforeIs<T>(s: seq<T>, c: T, k: nat)
    requires k <= |s| && (k < |s| ==> s[k] == c)
    requires forall i :: 0 <= i < k ==> s[i] != c
    ensures Before(s, c) == s[..k]
  {
    IndexOfIs(s, c, k);
  }

  lemma Assoc<T>(a: seq<T>, b: seq<T>, c: seq<T>)
    ensures a + (b + c) == (a + b) + c
  {
  }
}
