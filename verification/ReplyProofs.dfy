/** The reply payloads that parse are exactly the ones that the encoder writes. */
module ReplyProofs {
  import opened Basics
  import opened AnimationReplies

  // ----- splitting and joining -----

  lemma {:induction false} IndexOfIs(s: Bytes, c: char, i: nat)
    requires i <= |s| && c !in s[..i] && (i < |s| ==> s[i] == c)
    ensures IndexOf(s, c) == i
  {
  }

  lemma {:induction false} SplitPrepends(a: Bytes, sep: char, b: Bytes)
    requires sep !in a
    ensures Split(a + [sep] + b, sep) == [a] + Split(b, sep)
    ensures Split(a, sep) == [a]
  {
    var s := a + [sep] + b;
    assert s[..|a|] == a && s[|a| + 1..] == b && a[..|a|] == a;
    IndexOfIs(s, sep, |a|);
    IndexOfIs(a, sep, |a|);
  }

  lemma {:induction false} JoinPrepends(first: Bytes, pieces: seq<Bytes>, sep: char)
    requires pieces != []
    ensures Join([first] + pieces, sep) == first + [sep] + Join(pieces, sep)
  {
    assert ([first] + pieces)[1..] == pieces;
  }

  lemma {:induction false} SplitUndoesJoin(pieces: seq<Bytes>, sep: char)
    requires pieces != [] && forall i :: 0 <= i < |pieces| ==> sep !in pieces[i]
    ensures Split(Join(pieces, sep), sep) == pieces
    decreases |pieces|
  {
    if |pieces| == 1 {
      SplitPrepends(pieces[0], sep, []);
    } else {
      var first, rest := pieces[0], pieces[1..];
      assert pieces == [first] + rest;
      JoinPrepends(first, rest, sep);
      SplitPrepends(first, sep, Join(rest, sep));
      SplitUndoesJoin(rest, sep);
    }
  }

  lemma {:induction false} CutAt(s: Bytes, i: nat, rest: Bytes)
    requires i < |s| && rest == s[i + 1..]
    ensures s == s[..i] + [s[i]] + rest
  {
  }

  lemma {:induction false} JoinUndoesSplit(s: Bytes, sep: char)
    ensures Join(Split(s, sep), sep) == s
    decreases |s|
  {
    var i := IndexOf(s, sep);
    if i < |s| {
      var first, rest := s[..i], s[i + 1..];
      JoinUndoesSplit(rest, sep);
      JoinPrepends(first, Split(rest, sep), sep);
      CutAt(s, i, rest);
    }
  }

  function Pair(key: Bytes, value: Bytes): Bytes {
    key + ['='] + value
  }

  lemma {:induction false} SplitOnceIs(key: Bytes, value: Bytes)
    requires '=' !in key
    ensures SplitOnce(Pair(key, value), '=') == Some(Field(key, value))
  {
    var s := Pair(key, value);
    assert s[..|key|] == key && s[|key| + 1..] == value;
    IndexOfIs(s, '=', |key|);
  }

  lemma {:induction false} SplitOnceInverts(s: Bytes)
    ensures SplitOnce(s, '=').Some? ==> s == Pair(SplitOnce(s, '=').value.key, SplitOnce(s, '=').value.value)
  {
  }

  function Pairs(keys: seq<Bytes>, values: seq<Bytes>): (r: seq<Bytes>)
    requires |keys| == |values|
    ensures |r| == |keys| && forall i :: 0 <= i < |keys| ==> r[i] == Pair(keys[i], values[i])
  {
    seq(|keys|, i requires 0 <= i < |keys| => Pair(keys[i], values[i]))
  }

  lemma {:induction false} FieldsOfMatch(pieces: seq<Bytes>, fields: seq<Field>)
    requires |pieces| == |fields| && forall i :: 0 <= i < |pieces| ==> SplitOnce(pieces[i], '=') == Some(fields[i])
    ensures FieldsOf(pieces) == Ok(fields)
    decreases |pieces|
  {
    if pieces != [] {
      FieldsOfMatch(pieces[1..], fields[1..]);
      assert fields == [fields[0]] + fields[1..];
    }
  }

  lemma {:induction false} FieldsOfInvert(pieces: seq<Bytes>)
    ensures FieldsOf(pieces).Ok? ==>
              && |FieldsOf(pieces).value| == |pieces|
              && forall i :: 0 <= i < |pieces| ==> SplitOnce(pieces[i], '=') == Some(FieldsOf(pieces).value[i])
    decreases |pieces|
  {
    if pieces != [] {
      FieldsOfInvert(pieces[1..]);
    }
  }

  // ----- strict fields -----

  /** A list of fields is accepted exactly when it is the join of the expected keys with values. */
  lemma {:induction false} StrictFieldsAccept(keys: seq<Bytes>, values: seq<Bytes>)
    requires |keys| == |values| > 0
    requires forall i :: 0 <= i < |keys| ==> '=' !in keys[i] && ';' !in keys[i] && ';' !in values[i]
    ensures var r := StrictFields(Join(Pairs(keys, values), ';'), keys);
            r.Ok? && |r.value| == |keys| && forall i :: 0 <= i < |keys| ==> r.value[i] == Field(keys[i], values[i])
  {
    var pieces := Pairs(keys, values);
    var fields := seq(|keys|, i requires 0 <= i < |keys| => Field(keys[i], values[i]));
    SplitUndoesJoin(pieces, ';');
    forall i | 0 <= i < |keys|
      ensures SplitOnce(pieces[i], '=') == Some(fields[i])
    {
      SplitOnceIs(keys[i], values[i]);
    }
    FieldsOfMatch(pieces, fields);
  }

  lemma {:induction false} StrictFieldsInvert(input: Bytes, keys: seq<Bytes>, values: seq<Bytes>)
    requires StrictFields(input, keys).Ok? && |keys| == |values| > 0
    requires forall i :: 0 <= i < |keys| ==> StrictFields(input, keys).value[i].value == values[i]
    ensures input == Join(Pairs(keys, values), ';')
  {
    var pieces := Split(input, ';');
    JoinUndoesSplit(input, ';');
    FieldsOfInvert(pieces);
    var fields := FieldsOf(pieces).value;
    forall i | 0 <= i < |pieces|
      ensures pieces[i] == Pair(keys[i], values[i])
    {
      SplitOnceInverts(pieces[i]);
      assert fields[i].key == keys[i] && fields[i].value == values[i];
    }
    assert pieces == Pairs(keys, values);
  }

  /** The first of the fields whose key is not the expected one. */
  ghost predicate FirstWrong(fields: seq<Field>, keys: seq<Bytes>, i: nat) {
    i < |fields| && i < |keys| && fields[i].key != keys[i] && forall j :: 0 <= j < i && j < |keys| ==> fields[j].key == keys[j]
  }

  lemma {:induction false} CheckKeysRefuses(fields: seq<Field>, keys: seq<Bytes>, i: nat, n: nat)
    requires i <= n && |fields| == |keys| && FirstWrong(fields, keys, n)
    ensures CheckKeys(fields, keys, i) == Err(if exists j :: 0 <= j < n && keys[j] == fields[n].key then DuplicateField else InvalidField)
    decreases n - i
  {
    if i < n {
      CheckKeysRefuses(fields, keys, i + 1, n);
    } else {
      assert fields[n].key in keys[..n] <==> exists j :: 0 <= j < n && keys[..n][j] == fields[n].key;
    }
  }

  /** Why fields are refused: a piece without an equals sign or a wrong key is invalid, a key repeated from
      before is a duplicate, and any other number of fields than expected means that one is missing. */
  lemma {:induction false} StrictFieldsRefuse(pieces: seq<Bytes>, keys: seq<Bytes>, fields: seq<Field>, n: nat)
    requires pieces != [] && forall i :: 0 <= i < |pieces| ==> ';' !in pieces[i]
    ensures (exists i :: 0 <= i < |pieces| && '=' !in pieces[i]) ==> StrictFields(Join(pieces, ';'), keys) == Err(InvalidField)
    ensures |fields| == |pieces| && (forall i :: 0 <= i < |pieces| ==> SplitOnce(pieces[i], '=') == Some(fields[i])) ==>
              && (|pieces| != |keys| ==> StrictFields(Join(pieces, ';'), keys) == Err(MissingField))
              && (|pieces| == |keys| && FirstWrong(fields, keys, n) ==>
                    StrictFields(Join(pieces, ';'), keys)
                    == Err(if exists j :: 0 <= j < n && keys[j] == fields[n].key then DuplicateField else InvalidField))
  {
    SplitUndoesJoin(pieces, ';');
    if i :| 0 <= i < |pieces| && '=' !in pieces[i] {
      FieldsOfRefuse(pieces, i);
    }
    if |fields| == |pieces| && forall i :: 0 <= i < |pieces| ==> SplitOnce(pieces[i], '=') == Some(fields[i]) {
      FieldsOfMatch(pieces, fields);
      if |pieces| == |keys| && FirstWrong(fields, keys, n) {
        CheckKeysRefuses(fields, keys, 0, n);
      }
    }
  }

  lemma {:induction false} FieldsOfRefuse(pieces: seq<Bytes>, i: nat)
    requires i < |pieces| && '=' !in pieces[i]
    ensures FieldsOf(pieces) == Err(InvalidField)
    decreases |pieces|
  {
    if i > 0 {
      FieldsOfRefuse(pieces[1..], i - 1);
    } else {
      IndexOfIs(pieces[0], '=', |pieces[0]|);
    }
  }

  // ----- values -----

  lemma {:induction false} TextIsExact(s: Bytes, t: TextAnimationChoice)
    ensures ParseText(s) == Ok(t) <==> s == TextStr(t)
  {
  }

  lemma {:induction false} SourceIsExact(s: Bytes, o: OverlaySource)
    ensures ParseSource(s) == Ok(o) <==> s == SourceStr(o)
  {
  }

  lemma {:induction false} FlagIsExact(s: Bytes, b: bool)
    ensures ParseFlag(s) == Ok(b) <==> s == FlagStr(b)
  {
  }

  lemma {:induction false} CodeIsExact(s: Bytes, c: SaveErrorCode)
    ensures ParseCode(s) == Ok(c) <==> s == CodeStr(c)
  {
  }

  lemma {:induction false} KeysAndValuesAreClean(s: AnimationSnapshot, i: nat)
    requires i < 5
    ensures '=' !in SNAPSHOT_KEYS[i] && ';' !in SNAPSHOT_KEYS[i] && ';' !in SnapshotValues(s)[i]
  {
  }

  lemma {:induction false} JoinOfFive(p: seq<Bytes>, c: char)
    requires |p| == 5
    ensures Join(p, c) == p[0] + ([c] + p[1]) + ([c] + p[2]) + ([c] + p[3]) + ([c] + p[4])
  {
    var p1, p2, p3, p4 := p[1..], p[1..][1..], p[1..][1..][1..], p[1..][1..][1..][1..];
    assert Join(p4, c) == p[4];
    assert Join(p3, c) == p[3] + [c] + p[4];
    assert Join(p2, c) == p[2] + [c] + (p[3] + [c] + p[4]);
    assert Join(p1, c) == p[1] + [c] + (p[2] + [c] + (p[3] + [c] + p[4]));
  }

  /** The format string is the join of the fields. */
  lemma {:induction false} SnapshotIsJoin(s: AnimationSnapshot)
    ensures EncodeValue(Snapshot(s)) == "v1;" + Join(Pairs(SNAPSHOT_KEYS, SnapshotValues(s)), ';')
  {
    var p := Pairs(SNAPSHOT_KEYS, SnapshotValues(s));
    JoinOfFive(p, ';');
    var a, b, c, d, e := TextStr(s.text), FlagStr(s.cursorTrail), SourceStr(s.textSource), SourceStr(s.trailSource), FlagStr(s.saveAvailable);
    var q1 := "v1;text=" + a;
    assert "v1;" + p[0] == q1;
    assert [';'] + p[1] == ";trail=" + b;
    assert [';'] + p[2] == ";text_src=" + c;
    assert [';'] + p[3] == ";trail_src=" + d;
    assert [';'] + p[4] == ";save=" + e;
    Associative(q1, ";trail=", b);
    var q2 := q1 + ";trail=" + b;
    Associative(q2, ";text_src=", c);
    var q3 := q2 + ";text_src=" + c;
    Associative(q3, ";trail_src=", d);
    var q4 := q3 + ";trail_src=" + d;
    Associative(q4, ";save=", e);
    assert EncodeValue(Snapshot(s)) == q1 + (";trail=" + b) + (";text_src=" + c) + (";trail_src=" + d) + (";save=" + e);
    FiveParts("v1;", p[0], ";trail=" + b, ";text_src=" + c, ";trail_src=" + d, ";save=" + e);
  }

  lemma {:induction false} FiveParts(h: Bytes, a: Bytes, b: Bytes, c: Bytes, d: Bytes, e: Bytes)
    ensures h + (a + b + c + d + e) == (h + a) + b + c + d + e
  {
    Associative(h, a + b + c + d, e);
    Associative(h, a + b + c, d);
    Associative(h, a + b, c);
    Associative(h, a, b);
  }

  /** Parsing accepts a payload as a reply exactly when the payload is what the encoder writes
      for that reply. So encoding and parsing are inverse, in both directions. */
  lemma {:induction false} PayloadIsCanonical(p: Bytes, r: AnimationReply)
    ensures ParsePayload(p) == Ok(r) <==> p == EncodeValue(r)
  {
    match r {
      case Snapshot(s) =>
        SnapshotIsJoin(s);
        SnapshotRestIsCanonical(p, s);
      case Saved(None) =>
      case Saved(Some(code)) =>
        SavedErrorIsCanonical(p, code);
    }
  }

  lemma {:induction false} SavedErrorIsCanonical(p: Bytes, code: SaveErrorCode)
    ensures ParsePayload(p) == Ok(Saved(Some(code))) <==> p == "err;code=" + CodeStr(code)
  {
    if "err;code=" <= p {
      assert p == "err;code=" + p[9..];
      CodeIsExact(p[9..], code);
      assert ("err;code=" + CodeStr(code))[9..] == CodeStr(code);
      assert p[0] == 'e';
    } else {
      assert p != "err;code=" + CodeStr(code);
    }
  }

  lemma {:induction false} SnapshotRestIsCanonical(p: Bytes, s: AnimationSnapshot)
    ensures ParsePayload(p) == Ok(Snapshot(s)) <==> p == "v1;" + Join(Pairs(SNAPSHOT_KEYS, SnapshotValues(s)), ';')
  {
    var values := SnapshotValues(s);
    var joined := Join(Pairs(SNAPSHOT_KEYS, values), ';');
    forall i | 0 <= i < 5
      ensures '=' !in SNAPSHOT_KEYS[i] && ';' !in SNAPSHOT_KEYS[i] && ';' !in values[i]
    {
      KeysAndValuesAreClean(s, i);
    }
    StrictFieldsAccept(SNAPSHOT_KEYS, values);
    if "v1;" <= p {
      var rest := p[3..];
      assert p == "v1;" + rest;
      SnapshotFieldsAreExact(rest, s);
      if ParseSnapshot(rest) == Ok(Snapshot(s)) {
        StrictFieldsInvert(rest, SNAPSHOT_KEYS, values);
      }
    }
  }

  lemma {:induction false} SnapshotFieldsAreExact(rest: Bytes, s: AnimationSnapshot)
    ensures ParseSnapshot(rest) == Ok(Snapshot(s)) <==>
            var fields := StrictFields(rest, SNAPSHOT_KEYS);
            fields.Ok? && forall i :: 0 <= i < 5 ==> fields.value[i].value == SnapshotValues(s)[i]
  {
    var fields := StrictFields(rest, SNAPSHOT_KEYS);
    if fields.Ok? {
      TextIsExact(fields.value[0].value, s.text);
      FlagIsExact(fields.value[1].value, s.cursorTrail);
      SourceIsExact(fields.value[2].value, s.textSource);
      SourceIsExact(fields.value[3].value, s.trailSource);
      FlagIsExact(fields.value[4].value, s.saveAvailable);
    }
  }
}
