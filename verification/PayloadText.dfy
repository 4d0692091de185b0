/** Why the last byte of the mixed payload is replaced: the stream is valid UTF-8 only when it
    is cut between scalars, and ten MiB is not such a place. */
module PayloadText {
  import opened Basics
  import opened Payloads
  import opened Utf8
  import opened Workloads

  /** A scalar starts at byte `r` of a cycle; the three wide ones take three bytes. */
  predicate StartsScalar(j: nat) {
    var r := j % 48;
    r <= 9 || r == 12 || r == 15 || r >= 18
  }

  predicate IsWide(j: nat) {
    var r := j % 48;
    r == 9 || r == 12 || r == 15
  }

  /** Inside a cycle positions advance together with the stream. */
  lemma {:induction false} CyclePosition(j: nat, i: nat, t: nat)
    requires i == j + t && j % 48 + t < 48
    ensures i % 48 == j % 48 + t && i / 48 == j / 48
  {
    QuotientIs(i, 48, j / 48, j % 48 + t);
  }

  lemma {:induction false} NextScalar(j: nat, t: nat, next: nat)
    requires StartsScalar(j) && t == (if IsWide(j) then 3 else 1) && next == j + t
    ensures StartsScalar(next)
    ensures forall i: nat :: j < i < next ==> !StartsScalar(i)
  {
    if IsWide(j) {
      CyclePosition(j, j + 1, 1);
      CyclePosition(j, j + 2, 2);
      CyclePosition(j, next, 3);
    } else if j % 48 < 47 {
      CyclePosition(j, next, 1);
    } else {
      QuotientIs(next, 48, j / 48 + 1, 0);
    }
  }

  lemma {:induction false} NarrowByte(j: nat)
    requires StartsScalar(j) && !IsWide(j)
    ensures RawByte(j) as int < 0x80
  {
  }

  lemma {:induction false} CjkRange(i: nat)
    requires i < 0x3000
    ensures var s := CjkBytes(i);
            0xE4 <= s[0] as int <= 0xE7 && 0x80 <= s[1] as int <= 0xBF && 0x80 <= s[2] as int <= 0xBF
  {
  }

  /** The three bytes of a wide scalar, in a cycle's terms. */
  lemma {:induction false} WideCycleBytes(k: nat, r: nat, r1: nat, r2: nat, c: nat)
    requires r == 9 + 3 * c && c < 3 && r1 == r + 1 && r2 == r + 2
    ensures 0xE4 <= CycleByte(k, r) as int <= 0xE7
    ensures 0x80 <= CycleByte(k, r1) as int <= 0xBF
    ensures 0x80 <= CycleByte(k, r2) as int <= 0xBF
  {
    CjkRange((k * 3 + c) % 0x3000);
  }

  lemma {:induction false} RawInCycle(j: nat, k: nat, r: nat, t: nat, i: nat, u: nat)
    requires k == j / 48 && r == j % 48 && i == j + t && u == r + t < 48
    ensures RawByte(i) == CycleByte(k, u)
  {
    CyclePosition(j, i, t);
  }

  lemma {:induction false} WideBytesAt(j: nat, k: nat, r: nat, c: nat, j1: nat, j2: nat)
    requires k == j / 48 && r == j % 48 && r == 9 + 3 * c && c < 3 && j1 == j + 1 && j2 == j + 2
    ensures 0xE4 <= RawByte(j) as int <= 0xE7
    ensures 0x80 <= RawByte(j1) as int <= 0xBF
    ensures 0x80 <= RawByte(j2) as int <= 0xBF
  {
    var r1, r2 := r + 1, r + 2;
    RawInCycle(j, k, r, 1, j1, r1);
    RawInCycle(j, k, r, 2, j2, r2);
    WideCycleBytes(k, r, r1, r2, c);
  }

  lemma {:induction false} WideBytes(j: nat)
    requires IsWide(j)
    ensures 0xE4 <= RawByte(j) as int <= 0xE7
    ensures 0x80 <= RawByte(j + 1) as int <= 0xBF
    ensures 0x80 <= RawByte(j + 2) as int <= 0xBF
  {
    var r := j % 48;
    WideBytesAt(j, j / 48, r, if r == 9 then 0 else if r == 12 then 1 else 2, j + 1, j + 2);
  }

  /** How text that starts like the raw stream at `j` begins. */
  lemma {:induction false} PrefixLike(s: Bytes, j: nat)
    requires StartsScalar(j) && s != []
    requires s[0] == RawByte(j)
    requires IsWide(j) && |s| > 1 ==> s[1] == RawByte(j + 1)
    requires IsWide(j) && |s| > 2 ==> s[2] == RawByte(j + 2)
    ensures Utf8Prefix(s) == if !IsWide(j) then 1 else if |s| >= 3 then 3 else 0
  {
    if IsWide(j) {
      WideBytes(j);
    } else {
      NarrowByte(j);
    }
  }

  lemma {:induction false} RawPrefix(j: nat, end: nat)
    requires StartsScalar(j) && j < end
    ensures Utf8Prefix(Tabulate(RawByte, j, end)) == if !IsWide(j) then 1 else if j + 3 <= end then 3 else 0
  {
    TabulateAt(RawByte, j, end, 0, j);
    if j + 1 < end {
      TabulateAt(RawByte, j, end, 1, j + 1);
    }
    if j + 2 < end {
      TabulateAt(RawByte, j, end, 2, j + 2);
    }
    PrefixLike(Tabulate(RawByte, j, end), j);
  }

  lemma {:induction false} Drop(byte: nat -> char, j: nat, end: nat, t: nat, next: nat)
    requires next == j + t <= end
    ensures Tabulate(byte, j, end)[t..] == Tabulate(byte, next, end)
  {
    TabulateJoins(byte, j, next, end);
    assert |Tabulate(byte, j, next)| == t;
  }

  /** The raw stream is valid UTF-8 exactly when it is cut where a scalar starts. */
  lemma {:induction false} RawIsUtf8When(j: nat, end: nat)
    requires StartsScalar(j) && j <= end
    ensures ValidUtf8(Tabulate(RawByte, j, end)) <==> StartsScalar(end)
    decreases end - j
  {
    if j < end {
      var t := if IsWide(j) then 3 else 1;
      var next := j + t;
      NextScalar(j, t, next);
      RawPrefix(j, end);
      if next <= end {
        Drop(RawByte, j, end, t, next);
        RawIsUtf8When(next, end);
      }
    }
  }

  /** The last of the ten MiB starts a scalar of its own. */
  lemma {:induction false} LeadIsLastStart(j: nat, t: nat, next: nat)
    requires StartsScalar(j) && j < TEN_MIB - 1 && t == (if IsWide(j) then 3 else 1) && next == j + t
    ensures next <= TEN_MIB - 1
  {
    LastByteIsALead();
    NextScalar(j, t, next);
    assert StartsScalar(TEN_MIB - 1);
  }

  /** Cut at ten MiB the raw stream is not text; with its last byte replaced it is. */
  lemma {:induction false} PayloadIsUtf8(j: nat)
    requires StartsScalar(j) && j < TEN_MIB
    ensures !ValidUtf8(Tabulate(RawByte, j, TEN_MIB))
    ensures ValidUtf8(Tabulate(UnicodeByte, j, TEN_MIB))
    decreases TEN_MIB - j
  {
    LastByteIsALead();
    RawIsUtf8When(j, TEN_MIB);
    var s := Tabulate(UnicodeByte, j, TEN_MIB);
    assert s[0] == UnicodeByte(j);
    if j == TEN_MIB - 1 {
      assert s[1..] == [];
      assert Utf8Prefix(s) == 1;
    } else {
      var t := if IsWide(j) then 3 else 1;
      var next := j + t;
      NextScalar(j, t, next);
      LeadIsLastStart(j, t, next);
      PayloadPrefix(j, t);
      Drop(UnicodeByte, j, TEN_MIB, t, next);
      PayloadIsUtf8(next);
    }
  }

  lemma {:induction false} PayloadPrefix(j: nat, t: nat)
    requires StartsScalar(j) && t == (if IsWide(j) then 3 else 1) && j + t <= TEN_MIB - 1
    ensures Utf8Prefix(Tabulate(UnicodeByte, j, TEN_MIB)) == t
  {
    forall i: nat | i < t ensures Tabulate(UnicodeByte, j, TEN_MIB)[i] == RawByte(j + i) {
      TabulateAt(UnicodeByte, j, TEN_MIB, i, j + i);
    }
    PrefixLike(Tabulate(UnicodeByte, j, TEN_MIB), j);
  }
}
