/** SQL `LIKE`, and what it finds in the label column (src/storage/node.rs:238-247). */
module Patterns {
  import opened Prelude
  import opened Bytes
  import opened Graph
  import opened Db

  function Fold(b: byte): byte {
    if 65 <= b <= 90 then b + 32 else b
  }

  /** Two bytes fold alike when they are equal or the two cases of one ASCII letter. */
  lemma FoldsAlike(a: byte, b: byte)
    ensures Fold(a) == Fold(b) <==>
            a == b || ('A' <= a as char <= 'Z' && b == a + 32) || ('A' <= b as char <= 'Z' && a == b + 32)
  {
  }

  /** A name without regard to the case of ASCII letters. */
  function FoldName(name: Name): (r: Name)
    ensures |r| == |name| && forall i :: 0 <= i < |r| ==> r[i] == Fold(name[i])
  {
    seq(|name|, i requires 0 <= i < |name| => Fold(name[i]))
  }

  /** One character of a pattern: `_` stands for any. */
  predicate LikeByte(pattern: byte, b: byte) {
    pattern == 95 || Fold(pattern) == Fold(b)
  }

  /** `text LIKE pattern`: `%` stands for any text. */
  predicate Like(pattern: seq<byte>, text: seq<byte>)
    decreases |pattern| + |text|
  {
    if pattern == [] then text == []
    else if pattern[0] == 37 then Like(pattern[1..], text) || (text != [] && Like(pattern, text[1..]))
    else text != [] && LikeByte(pattern[0], text[0]) && Like(pattern[1..], text[1..])
  }

  /** `label = lbl OR ':' || label || ':' LIKE '%:' || lbl || ':%'`. */
  predicate ColumnMatches(column: seq<byte>, lbl: Name) {
    column == lbl || Like([37] + ([58] + lbl + [58]) + [37], [58] + column + [58])
  }

  // ---------------------------------------------------------------- patterns

  lemma {:induction false} LikeConcat(p: seq<byte>, q: seq<byte>, t: seq<byte>, u: seq<byte>)
    requires Like(p, t) && Like(q, u)
    ensures Like(p + q, t + u)
    decreases |p| + |t|
  {
    if p == [] {
      assert p + q == q && t + u == u;
    } else {
      assert (p + q)[1..] == p[1..] + q;
      if p[0] == 37 && Like(p[1..], t) {
        LikeConcat(p[1..], q, t, u);
      } else {
        assert (t + u)[1..] == t[1..] + u;
        LikeConcat(if p[0] == 37 then p else p[1..], q, t[1..], u);
      }
    }
  }

  /** A pattern of two parts matches part by part. */
  lemma {:induction false} LikeSplit(p: seq<byte>, q: seq<byte>, text: seq<byte>) returns (i: nat)
    requires Like(p + q, text)
    ensures i <= |text| && Like(p, text[..i]) && Like(q, text[i..])
    decreases |p| + |text|
  {
    if p == [] {
      assert p + q == q;
      return 0;
    }
    assert (p + q)[1..] == p[1..] + q;
    if p[0] == 37 && Like(p[1..] + q, text) {
      i := LikeSplit(p[1..], q, text);
    } else {
      var k := LikeSplit(if p[0] == 37 then p else p[1..], q, text[1..]);
      i := k + 1;
      assert text[..i][1..] == text[1..][..k] && text[i..] == text[1..][k..];
    }
  }

  lemma {:induction false} AnyLike(text: seq<byte>)
    ensures Like([37], text)
    decreases |text|
  {
    assert [37 as byte][1..] == [];
    if text != [] {
      AnyLike(text[1..]);
    }
  }

  lemma {:induction false} LikeSelf(p: seq<byte>)
    ensures Like(p, p)
  {
    if p != [] {
      LikeSelf(p[1..]);
      if p[0] == 37 {
        assert Like(p[1..], p[1..]);
      }
    }
  }

  /** Only a pattern of `%` alone matches the empty text, and then any. */
  lemma {:induction false} LikeEmpty(p: seq<byte>, text: seq<byte>)
    requires Like(p, []) && p != []
    ensures Like(p, text)
    decreases |p| + |text|
  {
    if p[1..] == [] {
      assert p == [37];
      AnyLike(text);
    } else {
      LikeEmpty(p[1..], text);
    }
  }

  /** Without `%` a pattern matches character by character. */
  predicate Fits(pattern: seq<byte>, text: seq<byte>) {
    |pattern| == |text| && forall j :: 0 <= j < |text| ==> LikeByte(pattern[j], text[j])
  }

  lemma {:induction false} LikeFits(pattern: seq<byte>, text: seq<byte>)
    requires 37 !in pattern
    ensures Like(pattern, text) <==> Fits(pattern, text)
  {
    if pattern != [] && text != [] {
      LikeFits(pattern[1..], text[1..]);
      assert forall j :: 0 < j < |text| ==> text[j] == text[1..][j - 1];
      assert forall j :: 0 < j < |pattern| ==> pattern[j] == pattern[1..][j - 1];
    }
  }

  // ---------------------------------------------------------------- the label column

  /** Labels without a colon, none of them empty: all that `validate_name` lets through. */
  predicate ColumnSafe(labels: seq<Name>) {
    forall i :: 0 <= i < |labels| ==> labels[i] != [] && 58 !in labels[i]
  }

  /** What a stretch of neighbouring labels looks like in the column. */
  function RunOf(labels: seq<Name>, i: nat, j: nat): seq<byte>
    requires i <= j <= |labels|
  {
    JoinLabels(labels[i..j])
  }

  lemma {:induction false} JoinSplit(labels: seq<Name>, i: nat)
    requires 0 < i < |labels|
    ensures JoinLabels(labels) == JoinLabels(labels[..i]) + [58] + JoinLabels(labels[i..])
  {
    if i == 1 {
      assert labels[..1] == [labels[0]];
    } else {
      JoinSplit(labels[1..], i - 1);
      assert labels[1..][..i - 1] == labels[..i][1..] && labels[1..][i - 1..] == labels[i..];
    }
  }

  /** Between two colons of the column there stands any stretch of labels. */
  lemma RunInside(labels: seq<Name>, i: nat, j: nat) returns (before: seq<byte>, after: seq<byte>)
    requires i < j <= |labels|
    ensures [58] + JoinLabels(labels) + [58] == before + ([58] + RunOf(labels, i, j) + [58]) + after
  {
    hide JoinLabels;
    before, after := [], [];
    var tail := labels[i..];
    assert labels[0..] == labels && tail[..j - i] == labels[i..j] && tail[j - i..] == labels[j..];
    if i > 0 {
      JoinSplit(labels, i);
      before := [58] + JoinLabels(labels[..i]);
    }
    if j < |labels| {
      JoinSplit(tail, j - i);
      after := JoinLabels(labels[j..]) + [58];
    } else {
      assert labels[i..j] == tail;
    }
  }

  /** A colon of the column, but for the last, stands before a label. */
  lemma {:induction false} ColonStarts(labels: seq<Name>, before: seq<byte>, rest: seq<byte>) returns (i: nat)
    requires ColumnSafe(labels) && rest != [] && [58] + JoinLabels(labels) + [58] == before + [58] + rest
    ensures i <= |labels| && rest == JoinLabels(labels[i..]) + [58]
    decreases |labels|
  {
    var text := [58] + JoinLabels(labels) + [58];
    assert labels[0..] == labels;
    if before == [] {
      assert text[1..] == rest;
      return 0;
    }
    assert text[|before|] == 58 && labels != [];
    var head := labels[0];
    assert forall k :: 0 <= k < |head| ==> text[k + 1] == head[k] && head[k] in head;
    assert |before| > |head| && |labels| > 1;
    assert text[1 + |head|..] == [58] + JoinLabels(labels[1..]) + [58];
    assert (before + [58] + rest)[1 + |head|..] == before[1 + |head|..] + [58] + rest;
    var k := ColonStarts(labels[1..], before[1 + |head|..], rest);
    i := k + 1;
    assert labels[1..][k..] == labels[i..];
  }

  /** And the next colon, wherever it is, ends a label. */
  lemma {:induction false} ColonEnds(labels: seq<Name>, core: seq<byte>, after: seq<byte>) returns (m: nat)
    requires ColumnSafe(labels) && JoinLabels(labels) + [58] == core + [58] + after
    ensures m <= |labels| && core == JoinLabels(labels[..m]) && (labels != [] ==> m > 0)
    decreases |labels|
  {
    var text := JoinLabels(labels) + [58];
    if labels == [] {
      assert |text| == 1;
      return 0;
    }
    var head := labels[0];
    assert text[|core|] == 58;
    assert forall k :: 0 <= k < |head| ==> text[k] == head[k] && head[k] in head;
    assert |core| >= |head|;
    if |core| == |head| {
      assert core == text[..|core|] == text[..|head|] == head && labels[..1] == [head];
      return 1;
    }
    assert text[|head|] == core[|head|];
    assert |labels| > 1;
    var core' := core[|head| + 1..];
    assert text[|head| + 1..] == JoinLabels(labels[1..]) + [58];
    assert (core + [58] + after)[|head| + 1..] == core' + [58] + after;
    var k := ColonEnds(labels[1..], core', after);
    m := k + 1;
    assert core == head + [58] + core';
    assert labels[..m][1..] == labels[1..][..k];
  }

  /** A label column matches exactly when some stretch of its labels does. */
  lemma ColumnMatchesExact(labels: seq<Name>, lbl: Name)
    requires ColumnSafe(labels) && lbl != []
    ensures ColumnMatches(JoinLabels(labels), lbl) <==>
            exists i, j :: 0 <= i <= j <= |labels| && Like(lbl, RunOf(labels, i, j))
  {
    hide Like, JoinLabels;
    var column := JoinLabels(labels);
    assert labels[0..|labels|] == labels;
    if column == lbl {
      LikeSelf(lbl);
      assert Like(lbl, RunOf(labels, 0, |labels|));
    } else if ColumnMatches(column, lbl) {
      var i, j := MatchedRun(labels, lbl);
      assert Like(lbl, RunOf(labels, i, j));
    }
    if i, j :| 0 <= i <= j <= |labels| && Like(lbl, RunOf(labels, i, j)) {
      RunMatches(labels, lbl, i, j);
    }
  }

  lemma MatchedRun(labels: seq<Name>, lbl: Name) returns (i: nat, j: nat)
    requires ColumnSafe(labels) && Like([37] + ([58] + lbl + [58]) + [37], [58] + JoinLabels(labels) + [58])
    ensures i <= j <= |labels| && Like(lbl, RunOf(labels, i, j))
  {
    hide JoinLabels, Like;
    var text := [58] + JoinLabels(labels) + [58];
    var inside := [58] + lbl + [58];
    assert [37] + inside + [37] == [37] + (inside + [37]);
    var a := LikeSplit([37], inside + [37], text);
    var b := LikeSplit(inside, [37], text[a..]);
    var core := Bracketed(lbl, text[a..][..b]);
    var after := text[a..][b..];
    assert text == text[..a] + text[a..] && text[a..] == text[a..][..b] + after;
    assert text == text[..a] + [58] + (core + [58] + after);
    i := ColonStarts(labels, text[..a], core + [58] + after);
    var m := ColonEnds(labels[i..], core, after);
    j := i + m;
    assert labels[i..][..m] == labels[i..j];
  }

  /** What `':' || lbl || ':'` matches stands between two colons. */
  lemma Bracketed(lbl: Name, text: seq<byte>) returns (core: seq<byte>)
    requires Like([58] + lbl + [58], text)
    ensures text == [58] + core + [58] && Like(lbl, core)
  {
    assert ([58] + lbl + [58])[1..] == lbl + [58];
    var i := LikeSplit(lbl, [58], text[1..]);
    core := text[1..][..i];
    var last := text[1..][i..];
    assert last != [] && [58 as byte][1..] == [] && Like([], last[1..]);
    assert text == [text[0]] + (core + last) && last == [58];
  }

  lemma RunMatches(labels: seq<Name>, lbl: Name, i: nat, j: nat)
    requires i <= j <= |labels| && lbl != [] && Like(lbl, RunOf(labels, i, j))
    ensures ColumnMatches(JoinLabels(labels), lbl)
  {
    hide Like;
    var before, after: seq<byte>, core := [], [], RunOf(labels, i, j);
    if i < j {
      before, after := RunInside(labels, i, j);
    } else {
      assert labels[i..j] == [];
      assert core == [];
      LikeEmpty(lbl, JoinLabels(labels));
      core := JoinLabels(labels);
      assert [58] + JoinLabels(labels) + [58] == before + ([58] + core + [58]) + after;
    }
    LikeSelf([58]);
    LikeConcat([58], lbl, [58], core);
    LikeConcat([58] + lbl, [58], [58] + core, [58]);
    AnyLike(before);
    AnyLike(after);
    LikeConcat([37], [58] + lbl + [58], before, [58] + core + [58]);
    LikeConcat([37] + ([58] + lbl + [58]), [37], before + ([58] + core + [58]), after);
  }

  /** For a label without `%`, in particular every valid one: it and a stretch of labels agree in length and
      character by character, where `_` agrees with any. */
  lemma NameMatches(labels: seq<Name>, lbl: Name)
    requires ColumnSafe(labels) && lbl != [] && 37 !in lbl
    ensures ColumnMatches(JoinLabels(labels), lbl) <==>
            exists i, j :: 0 <= i < j <= |labels| && Fits(lbl, RunOf(labels, i, j))
  {
    hide Like, ColumnMatches;
    ColumnMatchesExact(labels, lbl);
    forall i, j | 0 <= i <= j <= |labels|
      ensures Like(lbl, RunOf(labels, i, j)) <==> i < j && Fits(lbl, RunOf(labels, i, j))
    {
      LikeFits(lbl, RunOf(labels, i, j));
    }
  }

  /** And without `_` only a label of that name is met, in any case. */
  lemma PlainNameMatches(labels: seq<Name>, lbl: Name)
    requires ColumnSafe(labels) && ValidName(lbl) && 95 !in lbl
    ensures ColumnMatches(JoinLabels(labels), lbl) <==>
            exists k :: 0 <= k < |labels| && FoldName(labels[k]) == FoldName(lbl)
  {
    hide Like, ColumnMatches, JoinLabels;
    assert 37 !in lbl && 58 !in lbl by {
      assert forall k :: 0 <= k < |lbl| ==> NameByte(lbl[k]);
    }
    NameMatches(labels, lbl);
    if i, j :| 0 <= i < j <= |labels| && Fits(lbl, RunOf(labels, i, j)) {
      OneLabel(labels, lbl, i, j);
      assert FoldName(labels[i]) == FoldName(lbl);
    }
    if k :| 0 <= k < |labels| && FoldName(labels[k]) == FoldName(lbl) {
      RunOfOne(labels, k);
      assert forall n :: 0 <= n < |lbl| ==> FoldName(labels[k])[n] == FoldName(lbl)[n];
      assert Fits(lbl, RunOf(labels, k, k + 1));
    }
  }

  lemma RunOfOne(labels: seq<Name>, k: nat)
    requires k < |labels|
    ensures RunOf(labels, k, k + 1) == labels[k]
  {
    assert labels[k..k + 1] == [labels[k]];
  }

  lemma RunHasColon(labels: seq<Name>, i: nat, j: nat)
    requires i < j <= |labels|
    ensures 58 in RunOf(labels, i, j) || j == i + 1
  {
    if j > i + 1 {
      assert RunOf(labels, i, j)[|labels[i]|] == 58;
    }
  }

  lemma OneLabel(labels: seq<Name>, lbl: Name, i: nat, j: nat)
    requires i < j <= |labels| && Fits(lbl, RunOf(labels, i, j)) && 58 !in lbl && 95 !in lbl
    ensures FoldName(labels[i]) == FoldName(lbl)
  {
    var core := RunOf(labels, i, j);
    assert forall n :: 0 <= n < |core| ==> lbl[n] in lbl && LikeByte(lbl[n], core[n]) && core[n] != 58;
    RunHasColon(labels, i, j);
    RunOfOne(labels, i);
  }

  // ---------------------------------------------------------------- reading the column

  lemma {:induction false} PiecesFree(s: seq<byte>, x: byte)
    ensures forall k :: 0 <= k < |Split(s, x)| ==> x !in Split(s, x)[k]
    decreases |s|
  {
    FirstIs(s, x);
    match First(s, x) {
      case None =>
      case Some(i) => PiecesFree(s[i + 1..], x);
    }
  }

  /** Splitting the column at its colons gives the labels back exactly when none of them has one. */
  lemma {:induction false} ColumnShowsLabels(labels: seq<Name>)
    requires labels != []
    ensures Split(JoinLabels(labels), 58) == labels <==> forall i :: 0 <= i < |labels| ==> 58 !in labels[i]
  {
    PiecesFree(JoinLabels(labels), 58);
    if forall i :: 0 <= i < |labels| ==> 58 !in labels[i] {
      ColumnSplits(labels);
    }
  }

  lemma {:induction false} ColumnSplits(labels: seq<Name>)
    requires labels != [] && forall i :: 0 <= i < |labels| ==> 58 !in labels[i]
    ensures Split(JoinLabels(labels), 58) == labels
  {
    assert labels == [labels[0]] + labels[1..];
    SplitOne(labels[0], 58, JoinLabels(labels[1..]));
    if |labels| > 1 {
      ColumnSplits(labels[1..]);
    }
  }
}
