/**
 Texts in blocks.  A text that is cut into blocks, each belonging to one field or to none, has its fields where the
 blocks are; a byte more in the last block is a byte more in its field.  So the fields of a text follow from how it
 is cut, and growing a text byte by byte grows its fields in step, as the parser does.  The kinds of bytes that the
 parts of a URL are made of are listed here as well, each by its characters, and compared with the character classes
 of the program.
 */
module UrlBlocks {
  import opened Bytes
  import opened Url

  // ---------- fields of a text in blocks ----------

  /** The fields of a text that is cut into blocks, each of which belongs to one field or to none. */
  function FieldsOf(bs: seq<bytes>, tags: seq<Option<Field>>): Fields
    requires |bs| == |tags|
    decreases |bs|
  {
    if bs == [] then map[]
    else
      var n := |bs| - 1;
      var before := FieldsOf(bs[..n], tags[..n]);
      if bs[n] == [] || tags[n] == None then before
      else before[tags[n].value := Slice(|Concat(bs[..n])|, |bs[n]|)]
  }

  ghost predicate Distinct(tags: seq<Option<Field>>) {
    forall i, j | 0 <= i < j < |tags| && tags[i].Some? :: tags[i] != tags[j]
  }

  lemma {:induction false} ConcatLast(bs: seq<bytes>)
    requires bs != []
    ensures Concat(bs) == Concat(bs[..|bs| - 1]) + bs[|bs| - 1]
    decreases |bs|
  {
    if |bs| == 1 {
      assert bs == [bs[0]] && bs[..0] == [];
      assert bs[0] + [] == bs[0] && [] + bs[0] == bs[0];
    } else {
      ConcatLast(bs[1..]);
      assert bs[1..][..|bs| - 2] == bs[..|bs| - 1][1..];
      Regroup(bs[0], Concat(bs[1..][..|bs| - 2]), bs[|bs| - 1]);
    }
  }

  lemma {:induction false} FieldsAreTagged(bs: seq<bytes>, tags: seq<Option<Field>>)
    requires |bs| == |tags|
    ensures forall f | f in FieldsOf(bs, tags) :: Some(f) in tags
    decreases |bs|
  {
    if bs != [] {
      var n := |bs| - 1;
      FieldsAreTagged(bs[..n], tags[..n]);
    }
  }

  /** Block 'k' grows by a byte; nothing stands behind it yet. */
  ghost predicate GrowsAt(bs: seq<bytes>, k: nat, c: byte, more: seq<bytes>) {
    && k < |bs| && more == bs[k := bs[k] + [c]]
    && forall j | k < j < |bs| :: bs[j] == []
  }

  lemma {:induction false} GrownText(bs: seq<bytes>, k: nat, c: byte, more: seq<bytes>)
    requires GrowsAt(bs, k, c, more)
    ensures Concat(more) == Concat(bs) + [c]
    decreases |bs|
  {
    var n := |bs| - 1;
    ConcatLast(bs);
    ConcatLast(more);
    if k == n {
      assert more[..n] == bs[..n];
      Regroup(Concat(bs[..n]), bs[n], [c]);
    } else {
      GrownText(bs[..n], k, c, more[..n]);
      assert Concat(bs[..n]) + [] == Concat(bs[..n]) && Concat(more[..n]) + [] == Concat(more[..n]);
    }
  }

  lemma {:induction false} GrownFields(bs: seq<bytes>, tags: seq<Option<Field>>, k: nat, c: byte, more: seq<bytes>)
    requires |bs| == |tags| && Distinct(tags) && GrowsAt(bs, k, c, more)
    ensures FieldsOf(more, tags) == NextFields(FieldsOf(bs, tags), tags[k], |Concat(bs)|)
    decreases |bs|
  {
    hide NextFields, Concat;
    var n := |bs| - 1;
    ConcatLast(bs);
    if k == n {
      assert more[..n] == bs[..n] && more[n] == bs[n] + [c];
      LastGrows(bs, tags, more);
    } else {
      assert Distinct(tags[..n]);
      GrownFields(bs[..n], tags[..n], k, c, more[..n]);
      assert bs[n] == [] && more[n] == [];
    }
  }

  lemma {:induction false} LastGrows(bs: seq<bytes>, tags: seq<Option<Field>>, more: seq<bytes>)
    requires |bs| == |tags| == |more| && bs != [] && Distinct(tags)
    requires var n := |bs| - 1; more[..n] == bs[..n] && |more[n]| == |bs[n]| + 1
    ensures var n := |bs| - 1;
            FieldsOf(more, tags) == NextFields(FieldsOf(bs, tags), tags[n], |Concat(bs[..n])| + |bs[n]|)
  {
    hide Concat;
    var n := |bs| - 1;
    FieldsAreTagged(bs[..n], tags[..n]);
  }

  lemma {:induction false} EmptyBlocks(bs: seq<bytes>, tags: seq<Option<Field>>)
    requires |bs| == |tags| && forall i | 0 <= i < |bs| :: bs[i] == []
    ensures Concat(bs) == [] && FieldsOf(bs, tags) == map[]
    decreases |bs|
  {
    if bs != [] {
      EmptyBlocks(bs[..|bs| - 1], tags[..|bs| - 1]);
      ConcatLast(bs);
    }
  }

  lemma {:induction false} ConcatBoth(a: seq<bytes>, b: seq<bytes>)
    ensures Concat(a + b) == Concat(a) + Concat(b)
    decreases |a|
  {
    if a == [] {
      assert a + b == b;
    } else {
      assert (a + b)[1..] == a[1..] + b;
      ConcatBoth(a[1..], b);
      Regroup(a[0], Concat(a[1..]), Concat(b));
    }
  }

  lemma {:induction false} ConcatAround(bs: seq<bytes>, k: nat)
    requires k < |bs|
    ensures Concat(bs) == Concat(bs[..k]) + (bs[k] + Concat(bs[k + 1..]))
  {
    hide Concat;
    assert bs == bs[..k] + bs[k..];
    ConcatBoth(bs[..k], bs[k..]);
    FirstBlock(bs[k..]);
    assert bs[k..][1..] == bs[k + 1..];
  }

  lemma FirstBlock(bs: seq<bytes>)
    requires bs != []
    ensures Concat(bs) == bs[0] + Concat(bs[1..])
  {
  }

  lemma {:induction false} InConcat(c: byte, bs: seq<bytes>)
    ensures c in Concat(bs) <==> exists i | 0 <= i < |bs| :: c in bs[i]
    decreases |bs|
  {
    if bs != [] {
      InConcat(c, bs[1..]);
      assert forall i | 0 < i < |bs| :: bs[i] == bs[1..][i - 1];
    }
  }

  function TextOf(buf: bytes, fields: Fields, f: Field): Option<bytes> {
    if f in fields && fields[f].off + fields[f].len <= |buf|
    then Some(buf[fields[f].off..fields[f].off + fields[f].len])
    else None
  }

  /** What a block holds is what its field holds. */
  lemma {:induction false} BlockIsField(bs: seq<bytes>, tags: seq<Option<Field>>, k: nat, rest: bytes)
    requires |bs| == |tags| && Distinct(tags) && k < |bs| && tags[k].Some?
    ensures TextOf(Concat(bs) + rest, FieldsOf(bs, tags), tags[k].value)
         == if bs[k] == [] then None else Some(bs[k])
    decreases |bs|
  {
    var n := |bs| - 1;
    var buf := Concat(bs) + rest;
    ConcatLast(bs);
    if k == n {
      FieldsAreTagged(bs[..n], tags[..n]);
      assert buf[|Concat(bs[..n])|..|Concat(bs[..n])| + |bs[n]|] == bs[n];
    } else {
      assert Distinct(tags[..n]);
      BlockIsField(bs[..n], tags[..n], k, bs[n] + rest);
      Regroup(Concat(bs[..n]), bs[n], rest);
    }
  }

  /** All fields lie within the first 'n' bytes. */
  ghost predicate FitIn(fields: Fields, n: nat) {
    forall f | f in fields :: fields[f].off + fields[f].len <= n
  }

  lemma {:induction false} FieldsFit(bs: seq<bytes>, tags: seq<Option<Field>>)
    requires |bs| == |tags|
    ensures FitIn(FieldsOf(bs, tags), |Concat(bs)|)
    decreases |bs|
  {
    hide Concat;
    if bs != [] {
      var n := |bs| - 1;
      ConcatLast(bs);
      FieldsFit(bs[..n], tags[..n]);
      var before, fields := FieldsOf(bs[..n], tags[..n]), FieldsOf(bs, tags);
      forall f | f in fields ensures fields[f].off + fields[f].len <= |Concat(bs)| {
        if f in before {
          assert before[f].off + before[f].len <= |Concat(bs[..n])|;
        }
      }
    }
  }

  lemma {:induction false} NoSuchField(bs: seq<bytes>, tags: seq<Option<Field>>, f: Field)
    requires |bs| == |tags| && Some(f) !in tags
    ensures f !in FieldsOf(bs, tags)
  {
    FieldsAreTagged(bs, tags);
  }

  // ---------- the kinds of bytes ----------

  predicate IsLetter(c: byte) { 65 <= c <= 90 || 97 <= c <= 122 }

  predicate IsDecimal(c: byte) { 48 <= c <= 57 }

  /** Letters, digits, and - _ . ! ~ * ' ( ) % ; : & = + $ , */
  predicate IsUserByte(c: byte) { IsLetter(c) || IsDecimal(c) || c as char in "-_.!~*'()%;:&=+$," }

  /** Visible ASCII but # and ?. */
  predicate IsPathByte(c: byte) { 33 <= c <= 126 && c as char !in "#?" }

  predicate IsQueryByte(c: byte) { 33 <= c <= 126 && c as char != '#' }

  predicate IsFragmentByte(c: byte) { 33 <= c <= 126 }

  /** User, host and port, brackets included. */
  predicate IsSiteByte(c: byte) { IsUserByte(c) || c as char in "[]@" }

  predicate IsNameByte(c: byte) { IsLetter(c) || IsDecimal(c) || c as char in ".-" }

  predicate IsAddressByte(c: byte) { IsDecimal(c) || 65 <= c <= 70 || 97 <= c <= 102 || c as char in ":." }

  predicate IsZoneByte(c: byte) { IsLetter(c) || IsDecimal(c) || c as char in "%.-_~" }

  lemma KindsOfBytes(c: byte)
    ensures IsAlpha(c) <==> IsLetter(c)
    ensures IsDigit(c) <==> IsDecimal(c)
    ensures IsUserinfoChar(c) <==> IsUserByte(c)
    ensures IsUrlChar(c) <==> IsPathByte(c)
    ensures IsUrlChar(c) || c == 63 <==> IsQueryByte(c)
    ensures IsUrlChar(c) || c == 63 || c == 35 <==> IsFragmentByte(c)
    ensures IsUserinfoChar(c) || c == 91 || c == 93 || c == 64 <==> IsSiteByte(c)
    ensures IsHostChar(c) <==> IsNameByte(c)
    ensures IsHexDigit(c) || c == 58 || c == 46 <==> IsAddressByte(c)
    ensures IsZoneChar(c) <==> IsZoneByte(c)
  {
  }
}
