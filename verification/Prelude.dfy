/** Vocabulary shared by every module. */
module Prelude {
  datatype Option<+T> = None | Some(value: T)

  /** The largest value of C's `size_t` on the 64-bit targets the server is built for. */
  const SIZE_MAX: nat := 0xFFFF_FFFF_FFFF_FFFF

  type Size = n: nat | n <= SIZE_MAX

  /** The size of the buffers for paths, include/files.h:6. */
  const FILE_PATH_MAX: nat := 4096

  function Min(a: nat, b: nat): (r: nat) {
    if a <= b then a else b
  }

  // Facts about sequences, by name, where the solver is not to look for them itself.

  lemma Assoc<T>(a: seq<T>, b: seq<T>, c: seq<T>)
    ensures a + b + c == a + (b + c)
  {
  }

  lemma Cut<T>(a: seq<T>, b: seq<T>)
    ensures (a + b)[..|a|] == a && (a + b)[|a|..] == b
  {
  }

  lemma CutAt<T>(s: seq<T>, i: nat)
    requires i < |s|
    ensures s == s[..i] + [s[i]] + s[i + 1..]
  {
  }
}
