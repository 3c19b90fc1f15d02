/** Order of file names: the collation codes of discreader/DirUtils.c and filename_cmp. */
module Collation {
  import opened Words

  type Name = seq<byte>

  const ROW0: seq<int> := [-1, 0, 0, 0, 0, 0, 0, 0, 0, 0, 0, 0, 0, 0, 0, 0]
  const ROW1: seq<int> := [0, 0, 0, 0, 0, 0, 0, 0, 0, 0, 0, 0, 0, 0, 0, 0]
  const ROW2: seq<int> := [0, 1, 0, 0, 0, 0, 0, 2, 3, 4, 0, 5, 6, 7, 0, 8]
  const ROW3: seq<int> := [9, 10, 11, 12, 13, 14, 15, 16, 17, 18, 0, 19, 20, 21, 22, 23]
  const ROW4: seq<int> := [0, 24, 26, 28, 30, 32, 34, 36, 38, 40, 42, 44, 46, 48, 50, 52]
  const ROW5: seq<int> := [54, 56, 58, 60, 62, 64, 66, 68, 70, 72, 76, 77, 0, 78, 0, 79]
  const ROW6: seq<int> := [80, 24, 26, 28, 30, 32, 34, 36, 38, 40, 42, 44, 46, 48, 50, 52]
  const ROW7: seq<int> := [54, 56, 58, 60, 62, 64, 66, 68, 70, 72, 76, 81, 0, 82, 83, 0]
  const ROW8: seq<int> := [84, 86, 86, 87, 88, 90, 90, 91, 92, 93, 94, 95, 96, 97, 98, 99]
  const ROW9: seq<int> := [100, 101, 102, 103, 104, 105, 106, 107, 108, 109, 110, 110, 112, 113, 114, 114]
  const ROWA: seq<int> := [116, 117, 118, 119, 120, 121, 122, 123, 124, 125, 126, 127, 128, 129, 130, 131]
  const ROWB: seq<int> := [132, 133, 134, 135, 136, 137, 138, 139, 140, 141, 142, 143, 144, 145, 146, 147]
  const ROWC: seq<int> := [148, 150, 152, 154, 156, 158, 160, 162, 164, 166, 168, 170, 172, 174, 176, 178]
  const ROWD: seq<int> := [180, 182, 184, 186, 188, 190, 192, 194, 196, 198, 200, 202, 204, 206, 208, 209]
  const ROWE: seq<int> := [148, 150, 152, 154, 156, 158, 160, 162, 164, 166, 168, 170, 172, 174, 176, 178]
  const ROWF: seq<int> := [180, 182, 184, 186, 188, 190, 192, 210, 196, 198, 200, 202, 204, 206, 208, 73]

  /** Sixteen codes of the table fn_collate, from code 16 * k on. */
  function Row(k: nat): (r: seq<int>)
    requires k < 16
    ensures |r| == 16
    ensures k == 0 ==> r[0] == -1
  {
    if k < 8 then LowRow(k) else HighRow(k)
  }

  function LowRow(k: nat): (r: seq<int>)
    requires k < 8
    ensures |r| == 16
    ensures forall i :: 0 <= i < 16 && (k > 0 || i > 0) ==> r[i] >= 0
    ensures k == 0 ==> r[0] == -1
  {
    if k == 0 then ROW0
    else if k == 1 then ROW1
    else if k == 2 then ROW2
    else if k == 3 then ROW3
    else if k == 4 then ROW4
    else if k == 5 then ROW5
    else if k == 6 then ROW6
    else ROW7
  }

  function HighRow(k: nat): (r: seq<int>)
    requires 8 <= k < 16
    ensures |r| == 16
    ensures forall i :: 0 <= i < 16 ==> r[i] >= 0
  {
    if k == 8 then ROW8
    else if k == 9 then ROW9
    else if k == 10 then ROWA
    else if k == 11 then ROWB
    else if k == 12 then ROWC
    else if k == 13 then ROWD
    else if k == 14 then ROWE
    else ROWF
  }

  /** Order code of a character; only the end of a string has a negative one. */
  function Collate(c: byte): (r: int)
    ensures c == 0 ==> r == -1
    ensures c > 0 ==> r >= 0
  {
    Row(c / 16)[c % 16]
  }

  /** A C string: no end mark inside. */
  ghost predicate CString(s: Name) {
    forall c :: c in s ==> c > 0
  }

  function CharAt(s: Name, i: nat): (c: byte) {
    if i < |s| then s[i] else 0
  }

  /** The order of names: by code, character by character, a prefix first. */
  function NameCmp(a: Name, b: Name): (r: int) {
    if a == [] then (if b == [] then 0 else -1)
    else if b == [] then 1
    else if Collate(a[0]) != Collate(b[0]) then Collate(a[0]) - Collate(b[0])
    else NameCmp(a[1..], b[1..])
  }

  method FilenameCmp(s1: Name, s2: Name) returns (r: int)
    requires CString(s1) && CString(s2)
    ensures r == NameCmp(s1, s2)
  {
    hide Collate;
    var i := 0;
    while true
      invariant 0 <= i <= |s1| && i <= |s2|
      invariant NameCmp(s1, s2) == NameCmp(s1[i..], s2[i..])
      decreases |s1| - i
    {
      var c1, c2 := Collate(CharAt(s1, i)), Collate(CharAt(s2, i));
      assert i < |s1| ==> s1[i] in s1 && s1[i..][0] == s1[i] && s1[i..][1..] == s1[i + 1..];
      assert i < |s2| ==> s2[i] in s2 && s2[i..][0] == s2[i] && s2[i..][1..] == s2[i + 1..];
      if c1 == -1 {
        return if c2 == -1 then 0 else -1;
      } else if c2 == -1 {
        return 1;
      } else if c1 != c2 {
        return c1 - c2;
      }
      i := i + 1;
    }
  }

  // ----- A total order up to names that collate alike

  lemma {:induction false} CmpAntisymmetric(a: Name, b: Name)
    ensures NameCmp(a, b) == -NameCmp(b, a)
    decreases |a|
  {
    if a != [] && b != [] {
      CmpAntisymmetric(a[1..], b[1..]);
    }
  }

  lemma {:induction false} CmpTransitive(a: Name, b: Name, c: Name)
    requires NameCmp(a, b) <= 0 && NameCmp(b, c) <= 0
    ensures NameCmp(a, c) <= 0
    ensures NameCmp(a, b) < 0 || NameCmp(b, c) < 0 ==> NameCmp(a, c) < 0
    decreases |a|
  {
    hide Collate;
    if a != [] && b != [] && c != [] && Collate(a[0]) == Collate(b[0]) == Collate(c[0]) {
      CmpTransitive(a[1..], b[1..], c[1..]);
    }
  }

  /** Names compare equal exactly when they have the same length and collate alike character by character. */
  lemma {:induction false} CmpEqual(a: Name, b: Name)
    ensures NameCmp(a, b) == 0 <==> |a| == |b| && forall i :: 0 <= i < |a| ==> Collate(a[i]) == Collate(b[i])
    decreases |a|
  {
    hide Collate;
    if a != [] && b != [] {
      CmpEqual(a[1..], b[1..]);
      assert forall i :: 0 < i < |a| ==> a[i] == a[1..][i - 1];
      assert forall i :: 0 < i < |b| ==> b[i] == b[1..][i - 1];
      assert |a| == |b| && (forall i :: 0 <= i < |a| ==> Collate(a[i]) == Collate(b[i])) ==>
               forall i :: 0 <= i < |a[1..]| ==> Collate(a[1..][i]) == Collate(b[1..][i]) by {
        assert forall i :: 0 <= i < |a| - 1 ==> a[1..][i] == a[i + 1];
        assert forall i :: 0 <= i < |b| - 1 ==> b[1..][i] == b[i + 1];
      }
    }
  }
}
