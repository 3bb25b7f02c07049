/** A packed C structure as the sequence of its unsigned little-endian fields.
    `widths` lists the field sizes in bytes, in declaration order. */
module Structs {
  import opened Bytes

  function Size(widths: seq<nat>): nat {
    if widths == [] then 0 else widths[0] + Size(widths[1..])
  }

  ghost predicate FieldsFit(widths: seq<nat>, fields: seq<nat>) {
    |widths| == |fields| && forall k :: 0 <= k < |fields| ==> fields[k] < Pow256(widths[k])
  }

  function Pack(widths: seq<nat>, fields: seq<nat>): (s: Bytes)
    requires |widths| == |fields|
    ensures |s| == Size(widths)
  {
    if widths == [] then [] else LittleEndian(fields[0], widths[0]) + Pack(widths[1..], fields[1..])
  }

  function Unpack(widths: seq<nat>, s: Bytes): (fields: seq<nat>)
    requires |s| == Size(widths)
    ensures |fields| == |widths|
  {
    if widths == [] then []
    else [Unsigned(s[..widths[0]])] + Unpack(widths[1..], s[widths[0]..])
  }

  lemma {:induction false} UnpackOfPack(widths: seq<nat>, fields: seq<nat>)
    requires FieldsFit(widths, fields)
    ensures Unpack(widths, Pack(widths, fields)) == fields
  {
    if widths != [] {
      var head := LittleEndian(fields[0], widths[0]);
      var tail := Pack(widths[1..], fields[1..]);
      assert (head + tail)[..widths[0]] == head;
      assert (head + tail)[widths[0]..] == tail;
      UnsignedOfLittleEndian(fields[0], widths[0]);
      UnpackOfPack(widths[1..], fields[1..]);
    }
  }

  lemma {:induction false} PackOfUnpack(widths: seq<nat>, s: Bytes)
    requires |s| == Size(widths)
    ensures FieldsFit(widths, Unpack(widths, s))
    ensures Pack(widths, Unpack(widths, s)) == s
  {
    if widths != [] {
      LittleEndianOfUnsigned(s[..widths[0]]);
      PackOfUnpack(widths[1..], s[widths[0]..]);
      var fields := Unpack(widths, s);
      assert fields[1..] == Unpack(widths[1..], s[widths[0]..]);
    }
  }

  lemma {:induction false} SizeAppend(first: seq<nat>, second: seq<nat>)
    ensures Size(first + second) == Size(first) + Size(second)
  {
    if first == [] {
      assert first + second == second;
    } else {
      assert (first + second)[1..] == first[1..] + second;
      SizeAppend(first[1..], second);
    }
  }

  lemma {:induction false} SizeUniform(n: nat, width: nat)
    ensures Size(seq(n, _ => width)) == n * width
  {
    if n > 0 {
      assert seq(n, _ => width)[1..] == seq(n - 1, _ => width);
      SizeUniform(n - 1, width);
    }
  }
}
