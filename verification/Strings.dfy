/** Facts about strings that several modules need. */
module Strings {

  /** isspace of the C locale: blank, or one of tab, newline, vertical tab, form feed and return. */
  predicate IsSpace(c: char) { c == ' ' || 9 <= c as int <= 13 }

  lemma Regroup(a: string, b: string, c: string)
    ensures a + (b + c) == (a + b) + c
  {
  }

  function Smaller(a: nat, b: nat): (c: nat)
    ensures c <= a && c <= b && (c == a || c == b)
  {
    if a < b then a else b
  }

  /** All messages, one after the other. */
  function Flatten(ms: seq<string>): (s: string) {
    if ms == [] then "" else ms[0] + Flatten(ms[1..])
  }

  lemma {:induction false} FlattenSnoc(ms: seq<string>, m: string)
    ensures Flatten(ms + [m]) == Flatten(ms) + m
    decreases |ms|
  {
    if ms == [] {
      assert ms + [m] == [m] && Flatten([m][1..]) == "";
    } else {
      assert (ms + [m])[1..] == ms[1..] + [m];
      FlattenSnoc(ms[1..], m);
    }
  }

  /** The messages after k bytes of the first one are gone; a message goes with its last byte. */
  function Advanced(ms: seq<string>, k: nat): (r: seq<string>)
    requires ms != [] && k <= |ms[0]|
  {
    if k < |ms[0]| then [ms[0][k..]] + ms[1..] else ms[1..]
  }

  lemma {:induction false} AdvancedFlatten(ms: seq<string>, k: nat)
    requires ms != [] && k <= |ms[0]|
    ensures Flatten(ms) == ms[0][..k] + Flatten(Advanced(ms, k))
  {
    if k < |ms[0]| {
      assert Advanced(ms, k)[1..] == ms[1..];
      assert ms[0] == ms[0][..k] + ms[0][k..];
      Regroup(ms[0][..k], ms[0][k..], Flatten(ms[1..]));
    } else {
      assert ms[0][..k] == ms[0];
    }
  }
}
