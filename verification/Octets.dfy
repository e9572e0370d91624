/** Bytes and unsigned machine integers as bounded integers, and the few sequence notions every
    byte-level module needs. */
module Octets {
  type octet = b: int | 0 <= b < 256
  type u16 = n: int | 0 <= n < 0x1_0000
  type u32 = n: int | 0 <= n < 0x1_0000_0000

  const CR: octet := 13
  const LF: octet := 10
  const CRLF: seq<octet> := [13, 10]

  datatype Option<+T> = None | Some(value: T)

  /** The bytes of an ASCII literal. */
  function Ascii(text: string): (bytes: seq<octet>)
    ensures |bytes| == |text|
    ensures forall i :: 0 <= i < |text| ==> bytes[i] == text[i] as int % 256
  {
    seq(|text|, i requires 0 <= i < |text| => text[i] as int % 256)
  }

  function Lower(c: octet): octet {
    if 65 <= c <= 90 then c + 32 else c
  }

  /** Case-insensitive comparison of a byte range with a literal. */
  predicate EqualInsensitive(a: seq<octet>, literal: seq<octet>) {
    |a| == |literal| && forall i :: 0 <= i < |a| ==> Lower(a[i]) == Lower(literal[i])
  }

  /** Some occurrence of `needle` lies wholly inside `text`. */
  predicate Contains(text: seq<octet>, needle: seq<octet>) {
    exists k :: 0 <= k <= |text| && needle <= text[k..]
  }

  /** The first index at or after `from` holding `c`, or the length. */
  function IndexOf(text: seq<octet>, c: octet, from: nat): (k: nat)
    requires from <= |text|
    ensures from <= k <= |text|
    ensures forall i :: from <= i < k ==> text[i] != c
    ensures k < |text| ==> text[k] == c
    decreases |text| - from
  {
    if from == |text| || text[from] == c then from else IndexOf(text, c, from + 1)
  }

  lemma IndexOfUnique(text: seq<octet>, c: octet, from: nat, k: nat)
    requires from <= k <= |text|
    requires forall i :: from <= i < k ==> text[i] != c
    requires k < |text| ==> text[k] == c
    ensures IndexOf(text, c, from) == k
  {
  }
}
