/** The installer's placeholder substitution, `replace_in_string`. */
module Substitution {

  predicate OccursAt(s: string, from: string, i: nat)
  {
    i + |from| <= |s| && forall j {:trigger from[j]} :: 0 <= j < |from| ==> s[i + j] == from[j]
  }

  lemma OccursMeans(s: string, from: string, i: nat)
    ensures OccursAt(s, from, i) <==> i + |from| <= |s| && s[i..i + |from|] == from
  {
    if i + |from| <= |s| {
      assert forall j {:trigger from[j]} :: 0 <= j < |from| ==> s[i..i + |from|][j] == s[i + j];
    }
  }

  /** The first occurrence at or after `pos` is at `k`. */
  predicate FirstAt(s: string, from: string, pos: nat, k: nat)
  {
    pos <= k <= |s| && OccursAt(s, from, k) && forall i :: pos <= i < k ==> !OccursAt(s, from, i)
  }

  /** Leftmost, non-overlapping substitution that never looks at inserted text again. */
  function Subst(s: string, from: string, to: string): (r: string)
    requires from != ""
    decreases |s|
  {
    if |s| < |from| then s
    else if OccursAt(s, from, 0) then to + Subst(s[|from|..], from, to)
    else s[..1] + Subst(s[1..], from, to)
  }

  lemma Shift(s: string, from: string, pos: nat, i: nat)
    requires pos <= |s|
    ensures OccursAt(s[pos..], from, i) <==> OccursAt(s, from, pos + i)
  {
  }

  lemma {:induction false} SubstSkips(s: string, from: string, to: string, k: nat)
    requires from != "" && k <= |s| && forall i :: 0 <= i < k ==> !OccursAt(s, from, i)
    ensures Subst(s, from, to) == s[..k] + Subst(s[k..], from, to)
    decreases k
  {
    if k == 0 {
      assert s[0..] == s;
    } else if |s| < |from| {
      assert s[..k] + s[k..] == s;
    } else {
      forall i | 0 <= i < k - 1 ensures !OccursAt(s[1..], from, i) {
        Shift(s, from, 1, i);
      }
      assert !OccursAt(s, from, 0);
      SubstSkips(s[1..], from, to, k - 1);
      assert s[1..][k - 1..] == s[k..] && s[..1] + s[1..][..k - 1] == s[..k];
    }
  }

  lemma SubstOnce(s: string, from: string, to: string, k: nat)
    requires from != "" && FirstAt(s, from, 0, k)
    ensures Subst(s, from, to) == s[..k] + to + Subst(s[k + |from|..], from, to)
  {
    Shift(s, from, k, 0);
    assert k + |from| <= |s| && forall i :: 0 <= i < k ==> !OccursAt(s, from, i);
    hide *;
    SubstSkips(s, from, to, k);
    SubstHead(s[k..], from, to);
    assert s[k..][|from|..] == s[k + |from|..];
    Associates(s[..k], to, Subst(s[k + |from|..], from, to));
  }

  lemma Associates(a: string, b: string, c: string)
    ensures a + (b + c) == a + b + c
  {
  }

  lemma SubstHead(s: string, from: string, to: string)
    requires from != "" && OccursAt(s, from, 0)
    ensures Subst(s, from, to) == to + Subst(s[|from|..], from, to)
  {
  }

  lemma SubstNone(s: string, from: string, to: string)
    requires from != "" && forall i :: 0 <= i <= |s| ==> !OccursAt(s, from, i)
    ensures Subst(s, from, to) == s
  {
    SubstSkips(s, from, to, |s|);
  }

  // ---------- substitution as splitting and joining ----------

  function Join(pieces: seq<string>, separator: string): (s: string)
    requires pieces != []
  {
    if |pieces| == 1 then pieces[0] else pieces[0] + separator + Join(pieces[1..], separator)
  }

  ghost predicate Free(s: string, from: string)
  {
    forall i :: 0 <= i <= |s| ==> !OccursAt(s, from, i)
  }

  /** In `piece` followed by `from` there is no earlier occurrence. */
  ghost predicate EndsBefore(piece: string, from: string)
  {
    forall i :: 0 <= i < |piece| ==> !OccursAt(piece + from, from, i)
  }

  /** Each piece ends where the first occurrence of `from` begins; the last has none. */
  ghost predicate Leftmost(pieces: seq<string>, from: string)
    requires pieces != []
  {
    && (forall k :: 0 <= k < |pieces| - 1 ==> EndsBefore(pieces[k], from))
    && Free(pieces[|pieces| - 1], from)
  }

  lemma OccurrenceInPrefix(a: string, b: string, from: string, i: nat)
    requires i + |from| <= |a|
    ensures OccursAt(a + b, from, i) <==> OccursAt(a, from, i)
  {
  }

  lemma FirstOfJoin(piece: string, from: string, rest: string)
    requires from != "" && EndsBefore(piece, from)
    ensures var s := piece + from + rest;
            FirstAt(s, from, 0, |piece|) && s[|piece| + |from|..] == rest
  {
    var s := piece + from + rest;
    forall i | 0 <= i < |piece| ensures !OccursAt(s, from, i) {
      OccurrenceInPrefix(piece + from, rest, from, i);
    }
  }

  /** However a text is cut at the leftmost occurrences, substituting is joining the same
      pieces with the replacement. */
  lemma {:induction false} SubstIsJoin(pieces: seq<string>, from: string, to: string)
    requires pieces != [] && from != "" && Leftmost(pieces, from)
    ensures Subst(Join(pieces, from), from, to) == Join(pieces, to)
    decreases |pieces|
  {
    if |pieces| == 1 {
      SubstNone(pieces[0], from, to);
    } else {
      var rest := Join(pieces[1..], from);
      FirstOfJoin(pieces[0], from, rest);
      SubstPiece(pieces[0], from, to, rest);
      assert Leftmost(pieces[1..], from);
      SubstIsJoin(pieces[1..], from, to);
      hide Subst, OccursAt;
    }
  }

  lemma SubstPiece(piece: string, from: string, to: string, rest: string)
    requires from != "" && EndsBefore(piece, from)
    ensures Subst(piece + from + rest, from, to) == piece + to + Subst(rest, from, to)
  {
    hide *;
    var s := piece + from + rest;
    FirstOfJoin(piece, from, rest);
    SubstOnce(s, from, to, |piece|);
    assert s[..|piece|] == piece;
  }

  /** Every text can be cut that way. */
  lemma {:induction false} Cut(s: string, from: string) returns (pieces: seq<string>)
    requires from != ""
    ensures pieces != [] && Leftmost(pieces, from) && Join(pieces, from) == s
    decreases |s|
  {
    if Free(s, from) {
      pieces := [s];
    } else {
      FirstExists(s, from);
      var k: nat :| FirstAt(s, from, 0, k);
      CutHead(s, from, k);
      hide FirstAt, OccursAt;
      var rest := Cut(s[k + |from|..], from);
      pieces := [s[..k]] + rest;
      JoinCons(s[..k], rest, from);
    }
  }

  lemma CutHead(s: string, from: string, k: nat)
    requires FirstAt(s, from, 0, k)
    ensures k + |from| <= |s| && s == s[..k] + from + s[k + |from|..] && EndsBefore(s[..k], from)
  {
    assert s == s[..k] + from + s[k + |from|..];
    forall i | 0 <= i < |s[..k]| ensures !OccursAt(s[..k] + from, from, i) {
      OccurrenceInPrefix(s[..k] + from, s[k + |from|..], from, i);
    }
  }

  lemma JoinCons(piece: string, rest: seq<string>, from: string)
    requires rest != []
    ensures Join([piece] + rest, from) == piece + from + Join(rest, from)
    ensures EndsBefore(piece, from) && Leftmost(rest, from) ==> Leftmost([piece] + rest, from)
  {
    hide EndsBefore, Free;
    assert ([piece] + rest)[1..] == rest;
  }

  lemma FirstExists(s: string, from: string)
    requires !Free(s, from)
    ensures exists k: nat :: FirstAt(s, from, 0, k)
  {
    var k :| 0 <= k <= |s| && OccursAt(s, from, k);
    while exists i :: 0 <= i < k && OccursAt(s, from, i)
      invariant 0 <= k <= |s| && OccursAt(s, from, k)
      decreases k
    {
      var i :| 0 <= i < k && OccursAt(s, from, i);
      k := i;
    }
    assert FirstAt(s, from, 0, k);
  }

  // ---------- when no placeholder is left ----------

  predicate EndsWith(s: string, t: string)
  {
    |t| <= |s| && s[|s| - |t|..] == t
  }

  predicate Comparable(a: string, b: string)
  {
    a <= b || b <= a
  }

  /** What the placeholder and the replacement must meet: the placeholder is not in the
      replacement, does not begin at its end, and no beginning that can stand before a first
      occurrence is completed by the replacement, or by what may follow it. */
  ghost predicate Clean(from: string, to: string)
  {
    && Free(to, from)
    && (forall j :: 0 < j < |from| ==> !EndsWith(to, from[..j]))
    && (forall k :: 0 < k < |from| && EndsBefore(from[..k], from) ==> !Comparable(from[k..], to))
  }

  /** Substitution leaves no placeholder, whatever the text, exactly for clean pairs. */
  lemma CleanIsExact(from: string, to: string)
    requires from != ""
    ensures (forall s :: Free(Subst(s, from, to), from)) <==> Clean(from, to)
  {
    hide Subst, OccursAt;
    if Clean(from, to) {
      forall s ensures Free(Subst(s, from, to), from) {
        PlaceholderGone(s, from, to);
      }
    } else {
      var s := Remnant(from, to);
    }
  }

  lemma PlaceholderGone(s: string, from: string, to: string)
    requires from != "" && Clean(from, to)
    ensures Free(Subst(s, from, to), from)
  {
    hide *;
    var pieces := Cut(s, from);
    SubstIsJoin(pieces, from, to);
    JoinIsFree(pieces, from, to);
  }

  /** No occurrence begins inside a piece ... */
  lemma NotInHead(head: string, from: string, tail: string, to: string, i: nat)
    requires EndsBefore(head, from) && Clean(from, to) && i < |head|
    ensures !OccursAt(head + (to + tail), from, i)
  {
    hide OccursAt, EndsBefore, EndsWith, Comparable, Free;
    if OccursAt(head + (to + tail), from, i) {
      if i + |from| <= |head| {
        OccurrenceInPrefix(head, to + tail, from, i);
        NotBefore(head, from, i);
      } else {
        var k := |head| - i;
        Straddles(head, to + tail, from, i);
        PrefixesCompare(from[k..], to, tail);
        StartsBefore(head, from, k);
      }
    }
  }

  lemma NotBefore(head: string, from: string, i: nat)
    requires EndsBefore(head, from) && i + |from| <= |head| && i < |head|
    ensures !OccursAt(head, from, i)
  {
    OccurrenceInPrefix(head, from, from, i);
  }

  lemma StartsBefore(head: string, from: string, k: nat)
    requires EndsBefore(head, from) && k <= |from| && EndsWith(head, from[..k])
    ensures EndsBefore(from[..k], from)
  {
    var i := |head| - k;
    assert (head + from)[i..] == from[..k] + from;
    forall j | 0 <= j < k ensures !OccursAt(from[..k] + from, from, j) {
      Shift(head + from, from, i, j);
    }
  }

  lemma Straddles(head: string, tail: string, from: string, i: nat)
    requires i <= |head| < i + |from| && OccursAt(head + tail, from, i)
    ensures from[|head| - i..] <= tail && EndsWith(head, from[..|head| - i])
  {
    var k, s := |head| - i, head + tail;
    assert forall j :: 0 <= j < |from| ==> s[i + j] == from[j];
    forall j | 0 <= j < |from| - k ensures tail[j] == from[k + j] {
      assert s[i + (k + j)] == from[k + j];
    }
  }

  lemma PrefixesCompare(a: string, b: string, c: string)
    requires a <= b + c
    ensures Comparable(a, b)
  {
    assert |a| <= |b| ==> a == (b + c)[..|a|] == b[..|a|];
    assert |b| <= |a| ==> b == (b + c)[..|b|] == a[..|b|];
  }

  /** ... nor inside a replacement. */
  lemma NotInReplacement(to: string, rest: string, from: string, i: nat)
    requires from != "" && Clean(from, to) && i < |to|
    ensures !OccursAt(to + rest, from, i)
  {
    if OccursAt(to + rest, from, i) {
      if i + |from| <= |to| {
        OccurrenceInPrefix(to, rest, from, i);
      } else {
        Straddles(to, rest, from, i);
      }
    }
  }

  lemma {:induction false} JoinIsFree(pieces: seq<string>, from: string, to: string)
    requires pieces != [] && from != "" && Leftmost(pieces, from) && Clean(from, to)
    ensures Free(Join(pieces, to), from)
    decreases |pieces|
  {
    hide Clean, OccursAt;
    if |pieces| > 1 {
      var head, rest := pieces[0], Join(pieces[1..], to);
      JoinIsFree(pieces[1..], from, to);
      var s := head + (to + rest);
      assert Join(pieces, to) == s;
      forall i | 0 <= i <= |s| ensures !OccursAt(s, from, i) {
        if i < |head| {
          NotInHead(head, from, rest, to, i);
        } else {
          Shift(s, from, |head|, i - |head|);
          assert s[|head|..] == to + rest;
          if i - |head| < |to| {
            NotInReplacement(to, rest, from, i - |head|);
          } else {
            Shift(to + rest, from, |to|, i - |head| - |to|);
            assert (to + rest)[|to|..] == rest;
          }
        }
      }
    }
  }

  /** A text in which the substitution leaves a placeholder. */
  lemma Remnant(from: string, to: string) returns (s: string)
    requires from != "" && !Clean(from, to)
    ensures !Free(Subst(s, from, to), from)
  {
    hide Subst, EndsWith, Comparable, OccursAt;
    if !Free(to, from) {
      s := from;
      Around("", "", from, to);
    } else if j :| 0 < j < |from| && EndsWith(to, from[..j]) {
      s := from + from[j..];
      Around("", from[j..], from, to);
      CompletedAfter(from, to, j);
    } else {
      var k :| 0 < k < |from| && EndsBefore(from[..k], from) && Comparable(from[k..], to);
      s := CompletedBefore(from, to, k);
    }
  }

  /** One occurrence between a beginning before it and a text too short to hold another. */
  lemma Around(before: string, after: string, from: string, to: string)
    requires EndsBefore(before, from) && |after| < |from|
    ensures Subst(before + from + after, from, to) == before + to + after
    ensures "" + from + "" == from && "" + to + "" == to && "" + from + after == from + after
    ensures "" + to + after == to + after
  {
    hide *;
    SubstPiece(before, from, to, after);
    TooShort(after, from, to);
    Units(from, to, after);
  }

  lemma TooShort(s: string, from: string, to: string)
    requires |s| < |from|
    ensures Subst(s, from, to) == s
  {
  }

  lemma Units(from: string, to: string, after: string)
    ensures "" + from + "" == from && "" + to + "" == to && "" + from + after == from + after
    ensures "" + to + after == to + after
  {
  }

  lemma CompletedAfter(from: string, to: string, j: nat)
    requires 0 < j < |from| && EndsWith(to, from[..j])
    ensures !Free(to + from[j..], from)
  {
    assert OccursAt(to + from[j..], from, |to| - j);
  }

  /** What `a` needs after `to`. */
  function Missing(a: string, to: string): (after: string)
    requires Comparable(a, to)
    ensures |after| <= |a| && a <= to + after
  {
    if a <= to then "" else a[|to|..]
  }

  lemma CompletedBefore(from: string, to: string, k: nat) returns (s: string)
    requires 0 < k < |from| && EndsBefore(from[..k], from) && Comparable(from[k..], to)
    ensures !Free(Subst(s, from, to), from)
  {
    hide *;
    var after := Missing(from[k..], to);
    s := from[..k] + from + after;
    Around(from[..k], after, from, to);
    Completes(from, to, k, after);
  }

  lemma Completes(from: string, to: string, k: nat, after: string)
    requires k <= |from| && from[k..] <= to + after
    ensures !Free(from[..k] + to + after, from)
  {
    var s := from[..k] + to + after;
    assert s == from[..k] + (to + after);
    assert from == from[..k] + from[k..];
    assert OccursAt(s, from, 0);
  }

  lemma FirstOfSuffix(s: string, t: string)
    ensures EndsWith(s, t) && t != "" ==> t[0] in s
  {
    if EndsWith(s, t) && t != "" {
      assert s[|s| - |t|] == s[|s| - |t|..][0];
    }
  }

  /** A replacement that shares no character with the placeholder is clean, if it is not
      empty or the placeholder is a single character. */
  lemma DisjointIsClean(from: string, to: string)
    requires from != "" && (forall c :: c in from ==> c !in to) && (to != "" || |from| == 1)
    ensures Clean(from, to)
  {
    forall i | 0 <= i <= |to| ensures !OccursAt(to, from, i) {
      assert i + |from| <= |to| ==> from[0] in from && to[i + 0] in to;
    }
    forall j | 0 < j < |from| ensures !EndsWith(to, from[..j]) {
      FirstOfSuffix(to, from[..j]);
      assert from[0] in from;
    }
    forall k | 0 < k < |from| ensures !Comparable(from[k..], to) {
      assert from[k..][0] in from && to[0] in to;
    }
  }

  /** The installer marks a placeholder with '$' at both ends. For a replacement without '$',
      no placeholder is ever left exactly if the replacement does not occur in the name. */
  lemma MarkedPlaceholder(name: string, to: string)
    requires '$' !in name && '$' !in to
    ensures var from := "$" + name + "$";
            (forall s :: Free(Subst(s, from, to), from)) <==>
            (forall i :: 0 <= i < |name| ==> !OccursAt(name, to, i))
  {
    var from := "$" + name + "$";
    CleanIsExact(from, to);
    hide Subst;
    forall i | 0 <= i <= |to| ensures !OccursAt(to, from, i) {
      assert i + |from| <= |to| ==> from[0] == '$' && to[i + 0] in to;
    }
    forall j | 0 < j < |from| ensures !EndsWith(to, from[..j]) {
      FirstOfSuffix(to, from[..j]);
    }
    forall k | 0 < k < |from|
      ensures EndsBefore(from[..k], from) && Comparable(from[k..], to) <==> k <= |name| && OccursAt(name, to, k - 1)
    {
      MarkedStart(name, to, k);
    }
    forall i | 0 <= i < |name|
      ensures OccursAt(name, to, i) <==> EndsBefore(from[..i + 1], from) && Comparable(from[i + 1..], to)
    {
      MarkedStart(name, to, i + 1);
    }
  }

  lemma MarkedStart(name: string, to: string, k: nat)
    requires '$' !in name && '$' !in to && 0 < k <= |name| + 1
    ensures var from := "$" + name + "$";
            EndsBefore(from[..k], from) && Comparable(from[k..], to) <==> k <= |name| && OccursAt(name, to, k - 1)
  {
    var from := "$" + name + "$";
    if k == |name| + 1 {
      assert OccursAt(from[..k] + from, from, 0);
    } else {
      forall i | 0 <= i < k ensures !OccursAt(from[..k] + from, from, i) {
        if i == 0 {
          assert (from[..k] + from)[0 + k] == '$' && from[k] == name[k - 1];
        } else {
          assert (from[..k] + from)[i + 0] == name[i - 1] && from[0] == '$';
        }
      }
      MarkedEnd(name, to, k);
    }
  }

  lemma MarkedEnd(name: string, to: string, k: nat)
    requires '$' !in name && '$' !in to && 0 < k <= |name|
    ensures Comparable(("$" + name + "$")[k..], to) <==> OccursAt(name, to, k - 1)
  {
    var rest := name[k - 1..] + "$";
    assert ("$" + name + "$")[k..] == rest;
    assert rest[|rest| - 1] == '$';
    assert !(rest <= to);
    Shift(name, to, k - 1, 0);
    if to <= rest {
      assert |to| < |rest|;
      assert to == rest[..|to|] == name[k - 1..][..|to|];
    }
    if OccursAt(name, to, k - 1) {
      assert OccursAt(name[k - 1..], to, 0);
      assert to == name[k - 1..][..|to|];
    }
  }

  predicate AllEqual(from: string)
  {
    forall i :: 0 < i < |from| ==> from[i] == from[0]
  }

  /** Deleting a placeholder may bring two halves of another together, unless all its
      characters are equal. */
  lemma DeletionIsClean(from: string)
    requires from != ""
    ensures (forall s :: Free(Subst(s, from, ""), from)) <==> AllEqual(from)
  {
    CleanIsExact(from, "");
    hide Subst;
    assert Free("", from);
    if AllEqual(from) {
      forall k | 0 < k < |from| ensures !EndsBefore(from[..k], from) {
        assert OccursAt(from[..k] + from, from, 0);
      }
    } else {
      var k := 1;
      assert Comparable(from[1..], "");
      if OccursAt(from[..1] + from, from, 0) {
        Repeats(from);
      }
      assert |from| > 1 && EndsBefore(from[..1], from);
    }
  }

  lemma Repeats(from: string)
    requires from != "" && OccursAt(from[..1] + from, from, 0)
    ensures AllEqual(from)
  {
    for i := 1 to |from|
      invariant forall j :: 0 < j < i ==> from[j] == from[0]
    {
      assert (from[..1] + from)[0 + i] == from[i - 1];
    }
  }

  // ---------- the routine ----------

  /** A text with `len` characters at `pos` replaced. */
  function Spliced(s: string, pos: nat, len: nat, to: string): (r: string)
    requires pos + len <= |s|
    ensures |r| == |s| - len + |to|
  {
    s[..pos] + to + s[pos + len..]
  }

  /** A mutable string. */
  class Text {
    var s: string

    constructor (s: string)
      ensures this.s == s
    {
      this.s := s;
    }

    /** `find`: the first occurrence at or after `pos`, or -1. */
    method Find(from: string, pos: nat) returns (at: int)
      requires pos <= |s|
      ensures at == -1 ==> forall i :: pos <= i <= |s| ==> !OccursAt(s, from, i)
      ensures at != -1 ==> at >= 0 && FirstAt(s, from, pos, at)
    {
      for i := pos to |s| + 1
        invariant forall j :: pos <= j < i ==> !OccursAt(s, from, j)
      {
        if OccursAt(s, from, i) {
          return i;
        }
      }
      return -1;
    }

    method Replace(pos: nat, len: nat, to: string)
      requires pos + len <= |s|
      modifies this
      ensures s == Spliced(old(s), pos, len, to)
    {
      s := s[..pos] + to + s[pos + len..];
    }
  }

  /** `replace_in_string`. It ends for every input, because what is left to scan shrinks. */
  method ReplaceInString(str: Text, from: string, to: string)
    modifies str
    ensures str.s == if from == "" then old(str.s) else Subst(old(str.s), from, to)
  {
    if from == "" {
      return;
    }
    ghost var result := Subst(str.s, from, to);
    var startPos: nat := 0;
    assert Stage(str.s, from, to, 0, result);
    hide *;
    while true
      invariant startPos <= |str.s|
      invariant Stage(str.s, from, to, startPos, result)
      decreases |str.s| - startPos
    {
      var at := str.Find(from, startPos);
      if at == -1 {
        NothingLeft(str.s, from, to, startPos, result);
        return;
      }
      Turn(str.s, from, to, startPos, at, result);
      str.Replace(at, |from|, to);
      startPos := at + |to|;
    }
  }

  /** `s` is done up to `pos`, and the rest is still to be substituted. */
  ghost predicate Stage(s: string, from: string, to: string, pos: nat, result: string)
    requires from != "" && pos <= |s|
  {
    s[..pos] + Subst(s[pos..], from, to) == result
  }

  lemma NothingLeft(s: string, from: string, to: string, pos: nat, result: string)
    requires from != "" && pos <= |s| && forall i :: pos <= i <= |s| ==> !OccursAt(s, from, i)
    requires Stage(s, from, to, pos, result)
    ensures s == result
  {
    forall i | 0 <= i <= |s[pos..]| ensures !OccursAt(s[pos..], from, i) {
      Shift(s, from, pos, i);
    }
    SubstNone(s[pos..], from, to);
  }

  /** One replacement goes from stage to stage, and less is left to scan. */
  lemma Turn(s: string, from: string, to: string, pos: nat, at: nat, result: string)
    requires from != "" && FirstAt(s, from, pos, at)
    requires Stage(s, from, to, pos, result)
    ensures at + |from| <= |s|
    ensures var r := Spliced(s, at, |from|, to);
            at + |to| <= |r| && Stage(r, from, to, at + |to|, result) && |r| - (at + |to|) < |s| - pos
  {
    SubstOnceFrom(s, from, to, pos, at);
    hide *;
    var r := Spliced(s, at, |from|, to);
    Splices(s, pos, at, |from|, to);
    Regroup(s, pos, at, to, Subst(s[at + |from|..], from, to));
    StageMeans(s, from, to, pos, result);
    StageMeans(r, from, to, at + |to|, result);
  }

  lemma StageMeans(s: string, from: string, to: string, pos: nat, result: string)
    requires from != "" && pos <= |s|
    ensures Stage(s, from, to, pos, result) <==> s[..pos] + Subst(s[pos..], from, to) == result
  {
  }

  lemma SubstOnceFrom(s: string, from: string, to: string, pos: nat, at: nat)
    requires from != "" && FirstAt(s, from, pos, at)
    ensures at + |from| <= |s| && Subst(s[pos..], from, to) == s[pos..at] + to + Subst(s[at + |from|..], from, to)
  {
    assert at + |from| <= |s|;
    hide *;
    forall i | 0 <= i < at - pos ensures !OccursAt(s[pos..], from, i) {
      Shift(s, from, pos, i);
    }
    Shift(s, from, pos, at - pos);
    Slices(s, pos, at, at - pos, |from|);
    SubstAround(s[pos..], from, to, at - pos, s[pos..at], s[at + |from|..]);
  }

  lemma SubstAround(s: string, from: string, to: string, k: nat, head: string, tail: string)
    requires from != "" && FirstAt(s, from, 0, k)
    requires k + |from| <= |s| && s[..k] == head && s[k + |from|..] == tail
    ensures Subst(s, from, to) == head + to + Subst(tail, from, to)
  {
    assert k + |from| <= |s|;
    hide *;
    SubstOnce(s, from, to, k);
  }

  lemma Slices(s: string, pos: nat, at: nat, k: nat, len: nat)
    requires at == pos + k && at + len <= |s|
    ensures s[pos..][..k] == s[pos..at] && s[pos..][k + len..] == s[at + len..]
  {
  }

  lemma Splices(s: string, pos: nat, at: nat, len: nat, to: string)
    requires pos <= at && at + len <= |s|
    ensures var r := Spliced(s, at, len, to);
            r[..at + |to|] == s[..at] + to && r[at + |to|..] == s[at + len..]
  {
  }

  lemma Regroup(s: string, pos: nat, at: nat, to: string, tail: string)
    requires pos <= at <= |s|
    ensures s[..pos] + (s[pos..at] + to + tail) == s[..at] + to + tail
  {
  }
}
