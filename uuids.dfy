/** java.util.UUID as its sixteen bytes, and its canonical string form. */
module Uuids {
  import opened Hex
  import opened JavaText

  /** A UUID: most significant byte first. */
  type Uuid = s: seq<Byte> | |s| == 16 witness seq(16, i => 0)

  /** UUID.toString: 8-4-4-4-12 lower-case hex digits separated by dashes. */
  function UuidToString(u: Uuid): string {
    HexEncode(u[0..4]) + "-" + HexEncode(u[4..6]) + "-" + HexEncode(u[6..8]) + "-"
    + HexEncode(u[8..10]) + "-" + HexEncode(u[10..16])
  }

  predicate NotDash(c: char) {
    c != '-'
  }

  /** String.replace("-", ""). */
  function RemoveDashes(s: string): string {
    Filter(s, NotDash)
  }

  lemma HexHasNoDash(bs: seq<Byte>)
    ensures RemoveDashes(HexEncode(bs)) == HexEncode(bs)
  {
    FilterKeepsAll(HexEncode(bs), NotDash);
  }

  lemma DashThenDigits(prefix: string, bs: seq<Byte>)
    ensures RemoveDashes(prefix + "-" + HexEncode(bs)) == RemoveDashes(prefix) + HexEncode(bs)
  {
    var dash := "-";
    assert RemoveDashes(dash) == [];
    FilterConcat(prefix + dash, HexEncode(bs), NotDash);
    FilterConcat(prefix, dash, NotDash);
    HexHasNoDash(bs);
  }

  /** The hex digits of the five groups, concatenated. */
  function GroupDigits(u: Uuid): string {
    HexEncode(u[0..4]) + HexEncode(u[4..6]) + HexEncode(u[6..8]) + HexEncode(u[8..10]) + HexEncode(u[10..16])
  }

  lemma DashesJoinGroups(u: Uuid)
    ensures RemoveDashes(UuidToString(u)) == GroupDigits(u)
  {
    var a, b, c, d, e := u[0..4], u[4..6], u[6..8], u[8..10], u[10..16];
    var s1 := HexEncode(a);
    var s2 := s1 + "-" + HexEncode(b);
    var s3 := s2 + "-" + HexEncode(c);
    var s4 := s3 + "-" + HexEncode(d);
    HexHasNoDash(a);
    DashThenDigits(s1, b);
    DashThenDigits(s2, c);
    DashThenDigits(s3, d);
    DashThenDigits(s4, e);
  }

  /** Encoding u[i..k] is encoding u[i..j] then u[j..k]. */
  lemma EncodeSplit(u: Uuid, i: nat, j: nat, k: nat)
    requires i <= j <= k <= 16
    ensures HexEncode(u[i..k]) == HexEncode(u[i..j]) + HexEncode(u[j..k])
  {
    assert u[i..k] == u[i..j] + u[j..k];
    HexEncodeConcat(u[i..j], u[j..k]);
  }

  lemma GroupsJoinBytes(u: Uuid)
    ensures HexEncode(u) == GroupDigits(u)
  {
    EncodeSplit(u, 0, 4, 6);
    EncodeSplit(u, 0, 6, 8);
    EncodeSplit(u, 0, 8, 10);
    EncodeSplit(u, 0, 10, 16);
    assert u[0..16] == u;
  }

  /** Dropping the dashes from the canonical form leaves the 32 hex digits of
      the sixteen bytes in order. */
  lemma UuidDigits(u: Uuid)
    ensures RemoveDashes(UuidToString(u)) == HexEncode(u)
  {
    DashesJoinGroups(u);
    GroupsJoinBytes(u);
  }
}
