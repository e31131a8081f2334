/** The register name table of dicts.py. */
module Dicts {
  import opened Wrappers

  /**
   * `REGISTER_DICT`: the register number a name denotes, `None` for a
   * name that is not a key of the table.
   */
  function RegisterDict(name: string): Option<nat> {
    match name
    case "$zero"  => Some(0)
    case "$0"     => Some(0)
    case "$at"    => Some(1)
    case "$v0"    => Some(2)
    case "$v1"    => Some(3)
    case "$a0"    => Some(4)
    case "$a1"    => Some(5)
    case "$a2"    => Some(6)
    case "$a3"    => Some(7)
    case "$t0"    => Some(8)
    case "$t1"    => Some(9)
    case "$t2"    => Some(10)
    case "$t3"    => Some(11)
    case "$t4"    => Some(12)
    case "$t5"    => Some(13)
    case "$t6"    => Some(14)
    case "$t7"    => Some(15)
    case "$s0"    => Some(16)
    case "$s1"    => Some(17)
    case "$s2"    => Some(18)
    case "$s3"    => Some(19)
    case "$s4"    => Some(20)
    case "$s5"    => Some(21)
    case "$s6"    => Some(22)
    case "$s7"    => Some(23)
    case "$t8"    => Some(24)
    case "$t9"    => Some(25)
    case "$k0"    => Some(26)
    case "$k1"    => Some(27)
    case "$gp"    => Some(28)
    case "$sp"    => Some(29)
    case "$fp"    => Some(30)
    case "$ra"    => Some(31)
    case _ => None
  }

  /** The conventional name of each register number, in number order. */
  const RegisterNames: seq<string> := [
    "$zero", "$at", "$v0", "$v1", "$a0", "$a1", "$a2", "$a3",
    "$t0", "$t1", "$t2", "$t3", "$t4", "$t5", "$t6", "$t7",
    "$s0", "$s1", "$s2", "$s3", "$s4", "$s5", "$s6", "$s7",
    "$t8", "$t9", "$k0", "$k1", "$gp", "$sp", "$fp", "$ra"
  ]

  /** Every register number fits a 5-bit field. */
  lemma RegisterValuesFit()
    ensures forall name :: RegisterDict(name).Some? ==> RegisterDict(name).value < 32
  {
  }

  /** Every register number 0..31 has a name, and `RegisterNames` gives one. */
  lemma EveryRegisterNamed()
    ensures |RegisterNames| == 32
    ensures forall i :: 0 <= i < 32 ==> RegisterDict(RegisterNames[i]) == Some(i)
  {
    forall i | 0 <= i < 32 ensures RegisterDict(RegisterNames[i]) == Some(i) {
      if i < 16 { NamedBelow16(i); } else { NamedFrom16(i); }
    }
  }

  lemma NamedBelow16(i: nat)
    requires i < 16
    ensures RegisterDict(RegisterNames[i]) == Some(i)
  {
    if i < 8 {
      if i == 0 { assert RegisterNames[0] == "$zero"; }
      else if i == 1 { assert RegisterNames[1] == "$at"; }
      else if i == 2 { assert RegisterNames[2] == "$v0"; }
      else if i == 3 { assert RegisterNames[3] == "$v1"; }
      else if i == 4 { assert RegisterNames[4] == "$a0"; }
      else if i == 5 { assert RegisterNames[5] == "$a1"; }
      else if i == 6 { assert RegisterNames[6] == "$a2"; }
      else { assert i == 7 && RegisterNames[7] == "$a3"; }
    } else {
      if i == 8 { assert RegisterNames[8] == "$t0"; }
      else if i == 9 { assert RegisterNames[9] == "$t1"; }
      else if i == 10 { assert RegisterNames[10] == "$t2"; }
      else if i == 11 { assert RegisterNames[11] == "$t3"; }
      else if i == 12 { assert RegisterNames[12] == "$t4"; }
      else if i == 13 { assert RegisterNames[13] == "$t5"; }
      else if i == 14 { assert RegisterNames[14] == "$t6"; }
      else { assert i == 15 && RegisterNames[15] == "$t7"; }
    }
  }

  lemma NamedFrom16(i: nat)
    requires 16 <= i < 32
    ensures RegisterDict(RegisterNames[i]) == Some(i)
  {
    if i < 24 {
      if i == 16 { assert RegisterNames[16] == "$s0"; }
      else if i == 17 { assert RegisterNames[17] == "$s1"; }
      else if i == 18 { assert RegisterNames[18] == "$s2"; }
      else if i == 19 { assert RegisterNames[19] == "$s3"; }
      else if i == 20 { assert RegisterNames[20] == "$s4"; }
      else if i == 21 { assert RegisterNames[21] == "$s5"; }
      else if i == 22 { assert RegisterNames[22] == "$s6"; }
      else { assert i == 23 && RegisterNames[23] == "$s7"; }
    } else {
      if i == 24 { assert RegisterNames[24] == "$t8"; }
      else if i == 25 { assert RegisterNames[25] == "$t9"; }
      else if i == 26 { assert RegisterNames[26] == "$k0"; }
      else if i == 27 { assert RegisterNames[27] == "$k1"; }
      else if i == 28 { assert RegisterNames[28] == "$gp"; }
      else if i == 29 { assert RegisterNames[29] == "$sp"; }
      else if i == 30 { assert RegisterNames[30] == "$fp"; }
      else { assert i == 31 && RegisterNames[31] == "$ra"; }
    }
  }

  /** Every name is the conventional name of its number, except `$0`, the second name of register 0. */
  lemma OnlyZeroHasTwoNames()
    ensures forall name :: RegisterDict(name).Some? ==>
              RegisterDict(name).value < |RegisterNames| && (name == RegisterNames[RegisterDict(name).value] || name == "$0")
    ensures RegisterDict("$0") == Some(0) && RegisterNames[0] == "$zero" != "$0"
  {
  }

  /** Every key of the table: the 32 conventional names and `$0`. */
  const RegisterKeys: seq<string> := RegisterNames + ["$0"]

  /** The table has exactly 33 keys, the conventional names and `$0`. */
  lemma ThirtyThreeKeys()
    ensures forall name :: RegisterDict(name).Some? <==> name in RegisterKeys
    ensures |set name | name in RegisterKeys| == 33
  {
    EveryRegisterNamed();
    OnlyZeroHasTwoNames();
    var keys := RegisterKeys;
    forall name | RegisterDict(name).Some? ensures name in keys {
      if name == "$0" {
        assert keys[32] == name;
      } else {
        assert keys[RegisterDict(name).value] == name;
      }
    }
    forall name | name in keys ensures RegisterDict(name).Some? {
      var i :| 0 <= i < |keys| && keys[i] == name;
      if i < 32 {
        assert RegisterDict(RegisterNames[i]) == Some(i);
      }
    }
    forall i, j | 0 <= i < j < |keys| ensures keys[i] != keys[j] {
      assert keys[i] == RegisterNames[i];
      if j < 32 {
        assert keys[j] == RegisterNames[j];
        assert RegisterDict(keys[i]) == Some(i) && RegisterDict(keys[j]) == Some(j);
      } else {
        assert RegisterDict(keys[i]) == Some(i) && keys[j] == "$0" && RegisterDict("$0") == Some(0);
      }
    }
    DistinctCount(keys);
  }

  /** A sequence without repeats has as many distinct elements as it has positions. */
  lemma {:induction false} DistinctCount(s: seq<string>)
    requires forall i, j :: 0 <= i < j < |s| ==> s[i] != s[j]
    ensures |set x | x in s| == |s|
  {
    if s != [] {
      var p := s[..|s| - 1];
      DistinctCount(p);
      assert (set x | x in s) == (set x | x in p) + {s[|s| - 1]};
      assert s[|s| - 1] !in p;
    }
  }

  /** The registers an instruction may not write are all names in the table. */
  lemma ProtectedNamesAreRegisters()
    ensures RegisterDict("$0") == Some(0) && RegisterDict("$zero") == Some(0) && RegisterDict("$at") == Some(1)
    ensures RegisterDict("$k0") == Some(26) && RegisterDict("$k1") == Some(27)
  {
  }
}
