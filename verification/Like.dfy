/**
 SQL LIKE (`src/like.rs`): `%` stands for any sequence of characters, `_` for exactly one.
 Two matchers, the greedy one with a single point of return and the one that searches literal
 pieces, against the definition by partition (section 8.5 of ISO/IEC 9075-2, no ESCAPE).
 */
module Like {

  // --- the definition -------------------------------------------------------------------------------

  // A piece of text may stand for a pattern character.
  predicate Fits(piece: string, c: char) {
    c == '%' || (|piece| == 1 && (c == '_' || piece[0] == c))
  }

  function Joined(pieces: seq<string>): string {
    if pieces == [] then "" else pieces[0] + Joined(pieces[1..])
  }

  // The text falls into as many consecutive pieces as the pattern has characters.
  ghost predicate Partition(s: string, p: string, pieces: seq<string>) {
    |pieces| == |p| && Joined(pieces) == s && forall i :: 0 <= i < |p| ==> Fits(pieces[i], p[i])
  }

  ghost predicate IsLike(s: string, p: string) {
    exists pieces :: Partition(s, p, pieces)
  }

  // The same, one pattern character at a time.
  ghost predicate Like(s: string, p: string)
    decreases |p|
  {
    if p == "" then s == ""
    else if p[0] == '%' then exists k :: 0 <= k <= |s| && Like(s[k..], p[1..])
    else s != "" && (p[0] == '_' || p[0] == s[0]) && Like(s[1..], p[1..])
  }

  lemma {:induction false} PartitionIsLike(s: string, p: string, pieces: seq<string>)
    requires Partition(s, p, pieces)
    ensures Like(s, p)
    decreases |p|
  {
    if p != "" {
      var first, rest := pieces[0], Joined(pieces[1..]);
      assert Fits(first, p[0]);
      assert s == first + rest && s[|first|..] == rest;
      forall i | 0 <= i < |p[1..]|
        ensures Fits(pieces[1..][i], p[1..][i])
      {
        assert Fits(pieces[i + 1], p[i + 1]);
      }
      PartitionIsLike(rest, p[1..], pieces[1..]);
    }
  }

  lemma {:induction false} LikeHasPartition(s: string, p: string) returns (pieces: seq<string>)
    requires Like(s, p)
    ensures Partition(s, p, pieces)
    decreases |p|
  {
    if p == "" {
      pieces := [];
    } else {
      var k: nat := 1;
      if p[0] == '%' {
        k :| 0 <= k <= |s| && Like(s[k..], p[1..]);
      }
      var rest := LikeHasPartition(s[k..], p[1..]);
      pieces := [s[..k]] + rest;
      assert pieces[1..] == rest;
      forall i | 0 <= i < |p|
        ensures Fits(pieces[i], p[i])
      {
        if i > 0 {
          assert Fits(rest[i - 1], p[1..][i - 1]);
        }
      }
    }
  }

  lemma LikeIsPartition(s: string, p: string)
    ensures Like(s, p) <==> IsLike(s, p)
  {
    if Like(s, p) {
      var pieces := LikeHasPartition(s, p);
    }
    if IsLike(s, p) {
      var pieces :| Partition(s, p, pieces);
      PartitionIsLike(s, p, pieces);
    }
  }

  // --- facts about the definition ---------------------------------------------------------------------

  // Behind a `%`, a longer text does no harm.
  lemma StarAbsorbs(s: string, p: string, k: nat)
    requires p != "" && p[0] == '%' && k <= |s| && Like(s[k..], p)
    ensures Like(s, p)
  {
    var j :| 0 <= j <= |s[k..]| && Like(s[k..][j..], p[1..]);
    assert s[k..][j..] == s[k + j..];
  }

  lemma {:induction false} EmptyText(p: string)
    ensures Like("", p) <==> forall i :: 0 <= i < |p| ==> p[i] == '%'
    decreases |p|
  {
    if p != "" {
      EmptyText(p[1..]);
      if p[0] == '%' {
        assert ""[0..] == "";
        assert Like("", p) <==> Like("", p[1..]);
        assert forall i :: 1 <= i < |p| ==> p[i] == p[1..][i - 1];
      }
    }
  }

  // A stretch of pattern without `%` takes as many characters as it has.
  predicate Literally(s: string, p: string) {
    |s| == |p| && forall i :: 0 <= i < |p| ==> p[i] != '%' && (p[i] == '_' || p[i] == s[i])
  }

  lemma {:induction false} LiteralPrefix(s: string, q: string, p: string)
    requires forall i :: 0 <= i < |q| ==> q[i] != '%'
    ensures Like(s, q + p) <==> |q| <= |s| && Literally(s[..|q|], q) && Like(s[|q|..], p)
    decreases |q|
  {
    if q == "" {
      assert q + p == p && s[0..] == s;
    } else if s != "" {
      assert (q + p)[1..] == q[1..] + p;
      LiteralPrefix(s[1..], q[1..], p);
      if |q| <= |s| {
        assert s[1..][|q| - 1..] == s[|q|..];
        assert s[1..][..|q| - 1] == s[..|q|][1..];
        assert Literally(s[..|q|], q) <==> (q[0] == '_' || q[0] == s[0]) && Literally(s[..|q|][1..], q[1..]) by {
          assert forall i :: 1 <= i < |q| ==> q[i] == q[1..][i - 1] && s[..|q|][i] == s[..|q|][1..][i - 1];
        }
      }
    }
  }

  // --- the greedy matcher -----------------------------------------------------------------------------

  // Where the loop stands: the text from `si` has still to match the pattern from `pi`. With a
  // `%` behind it at `star`, the text from `at` on was tried against what follows that `%`.
  ghost predicate Standing(s: string, p: string, si: nat, pi: nat, star: int, at: nat) {
    && si <= |s| && pi <= |p|
    && (star >= 0 ==>
      && star < pi && at <= si && si - at == pi - (star + 1)
      && p[star] == '%'
      && Literally(s[at..si], p[star + 1..pi]))
    && (star < 0 ==> at == 0)
  }

  // What is left to decide decides the whole question.
  ghost predicate Decides(s: string, p: string, si: nat, pi: nat, star: int, at: nat)
    requires Standing(s, p, si, pi, star, at)
  {
    if star < 0 then Like(s, p) <==> Like(s[si..], p[pi..])
    else Like(s, p) <==> Like(s[at..], p[star..])
  }

  // The tried stretch matched: what it leaves is a way to match from `at` on.
  lemma Stretch(s: string, p: string, si: nat, pi: nat, star: int, at: nat)
    requires Standing(s, p, si, pi, star, at) && star >= 0
    ensures Like(s[si..], p[pi..]) <==> Like(s[at..], p[star + 1..])
  {
    var q := p[star + 1..pi];
    assert p[star + 1..] == q + p[pi..];
    LiteralPrefix(s[at..], q, p[pi..]);
    assert s[at..][..|q|] == s[at..si] && s[at..][|q|..] == s[si..];
  }

  // Reaching the next `%`: the leftmost place for the stretch behind the last one is as good as any.
  lemma Commit(s: string, p: string, si: nat, pi: nat, star: int, at: nat)
    requires Standing(s, p, si, pi, star, at) && star >= 0 && pi < |p| && p[pi] == '%'
    ensures Like(s[at..], p[star..]) <==> Like(s[si..], p[pi..])
  {
    Stretch(s, p, si, pi, star, at);
    var q := p[star + 1..pi];
    assert p[star..][1..] == p[star + 1..] == q + p[pi..];
    if Like(s[si..], p[pi..]) {
      assert s[at..][0..] == s[at..];
    }
    if Like(s[at..], p[star..]) {
      var k :| 0 <= k <= |s[at..]| && Like(s[at..][k..], p[star..][1..]);
      LiteralPrefix(s[at..][k..], q, p[pi..]);
      assert s[at..][k..][|q|..] == s[si..][k..];
      StarAbsorbs(s[si..], p[pi..], k);
    }
  }

  // No match from `at` itself: only later starts remain.
  lemma Retry(s: string, p: string, star: int, at: nat)
    requires 0 <= star < |p| && p[star] == '%' && at < |s|
    requires !Like(s[at..], p[star + 1..])
    ensures Like(s[at..], p[star..]) <==> Like(s[at + 1..], p[star..])
  {
    assert p[star..][1..] == p[star + 1..];
    assert s[at..][1..] == s[at + 1..];
    if Like(s[at..], p[star..]) {
      var k :| 0 <= k <= |s[at..]| && Like(s[at..][k..], p[star..][1..]);
      assert k > 0 by {
        assert s[at..][0..] == s[at..];
      }
      assert s[at..][k..] == s[at + 1..][k - 1..];
    }
    if Like(s[at + 1..], p[star..]) {
      StarAbsorbs(s[at..], p[star..], 1);
    }
  }

  // A character of the text may be taken by the pattern character that equals it, `%` included;
  // unless that is `%`, there is no other way.
  lemma TakeOne(s: string, p: string, si: nat, pi: nat)
    requires si < |s| && pi < |p| && (p[pi] == '_' || p[pi] == s[si])
    ensures Like(s[si + 1..], p[pi + 1..]) ==> Like(s[si..], p[pi..])
    ensures p[pi] != '%' ==> (Like(s[si..], p[pi..]) <==> Like(s[si + 1..], p[pi + 1..]))
  {
    assert s[si..][1..] == s[si + 1..] && p[pi..][1..] == p[pi + 1..];
  }

  // The loop invariant: every way to go on is a way to match, and on a text without `%` nothing
  // but what is still open decides.
  ghost predicate Scanning(s: string, p: string, si: nat, pi: nat, star: int, at: nat) {
    && si <= |s| && pi <= |p|
    && -1 <= star < |p| && at <= si && (star >= 0 ==> star < pi && p[star] == '%')
    && (Like(s[si..], p[pi..]) ==> Like(s, p))
    && (star >= 0 && Like(s[at..], p[star..]) ==> Like(s, p))
    && ('%' !in s ==> Standing(s, p, si, pi, star, at) && Decides(s, p, si, pi, star, at))
  }

  lemma ScanTake(s: string, p: string, si: nat, pi: nat, star: int, at: nat)
    requires Scanning(s, p, si, pi, star, at) && si < |s| && pi < |p| && (p[pi] == '_' || p[pi] == s[si])
    ensures Scanning(s, p, si + 1, pi + 1, star, at)
  {
    hide Like;
    TakeOne(s, p, si, pi);
    if '%' !in s && star >= 0 {
      assert s[at..si + 1] == s[at..si] + [s[si]] && p[star + 1..pi + 1] == p[star + 1..pi] + [p[pi]];
    }
  }

  lemma ScanStar(s: string, p: string, si: nat, pi: nat, star: int, at: nat)
    requires Scanning(s, p, si, pi, star, at) && si < |s| && pi < |p| && p[pi] == '%'
    ensures Scanning(s, p, si, pi + 1, pi, si)
  {
    assert p[pi..][1..] == p[pi + 1..] && s[si..][0..] == s[si..];
    assert Like(s[si..], p[pi + 1..]) ==> Like(s[si..], p[pi..]);
    hide Like;
    if '%' !in s && star >= 0 {
      Commit(s, p, si, pi, star, at);
    }
    assert s[si..si] == "" && p[pi + 1..pi + 1] == "";
  }

  lemma ScanRetry(s: string, p: string, si: nat, pi: nat, star: int, at: nat)
    requires Scanning(s, p, si, pi, star, at) && si < |s| && star >= 0
    requires pi == |p| || (p[pi] != '_' && p[pi] != s[si] && p[pi] != '%')
    ensures Scanning(s, p, at + 1, star + 1, star, at + 1)
  {
    assert !Like(s[si..], p[pi..]);
    assert p[star..][1..] == p[star + 1..] && s[at + 1..][0..] == s[at + 1..];
    assert Like(s[at + 1..], p[star + 1..]) ==> Like(s[at + 1..], p[star..]);
    hide Like;
    if Like(s[at + 1..], p[star..]) {
      assert s[at..][1..] == s[at + 1..];
      StarAbsorbs(s[at..], p[star..], 1) by {
        assert p[star..][0] == '%';
      }
    }
    if '%' !in s {
      Stretch(s, p, si, pi, star, at);
      Retry(s, p, star, at);
    }
    assert s[at + 1..at + 1] == "" && p[star + 1..star + 1] == "";
  }

  lemma ScanFail(s: string, p: string, si: nat, pi: nat, at: nat)
    requires Scanning(s, p, si, pi, -1, at) && si < |s| && '%' !in s
    requires pi == |p| || (p[pi] != '_' && p[pi] != s[si] && p[pi] != '%')
    ensures !Like(s, p)
  {
  }

  lemma RestIsStars(s: string, p: string, pi: nat)
    requires pi <= |p|
    ensures s[|s|..] == ""
    ensures Like("", p[pi..]) <==> forall i :: pi <= i < |p| ==> p[i] == '%'
  {
    hide Like;
    EmptyText(p[pi..]);
    assert forall i :: pi <= i < |p| ==> p[i] == p[pi..][i - pi];
  }

  // A text that is used up by the stretch behind a `%` leaves nothing for the rest of the pattern.
  lemma NothingLeft(s: string, p: string, q: string, rest: string)
    requires p != "" && p[0] == '%' && p[1..] == q + rest && Like(s, p)
    requires |q| == |s| && forall i :: 0 <= i < |q| ==> q[i] != '%'
    ensures Like("", rest)
  {
    var k :| 0 <= k <= |s| && Like(s[k..], p[1..]);
    hide Like;
    LiteralPrefix(s[k..], q, rest);
    assert s[k..][|q|..] == "";
  }

  // At the end of the text only `%` may be left; no earlier start could do better.
  lemma ScanEnd(s: string, p: string, pi: nat, star: int, at: nat)
    requires Scanning(s, p, |s|, pi, star, at)
    ensures (forall i :: pi <= i < |p| ==> p[i] == '%') ==> Like(s, p)
    ensures '%' !in s && Like(s, p) ==> forall i :: pi <= i < |p| ==> p[i] == '%'
  {
    hide Like;
    RestIsStars(s, p, pi);
    if '%' !in s && Like(s, p) && star >= 0 {
      assert p[star..][1..] == p[star + 1..pi] + p[pi..];
      NothingLeft(s[at..], p[star..], p[star + 1..pi], p[pi..]);
    }
  }

  // The loop as a function: what it answers from where it stands.
  predicate Greedy(s: string, p: string, si: nat, pi: nat, star: int, at: nat)
    requires at <= si <= |s| && pi <= |p| && -1 <= star < |p|
    decreases |s| - at, |p| - pi
  {
    if si == |s| then forall i :: pi <= i < |p| ==> p[i] == '%'
    else if pi < |p| && (p[pi] == '_' || p[pi] == s[si]) then Greedy(s, p, si + 1, pi + 1, star, at)
    else if pi < |p| && p[pi] == '%' then Greedy(s, p, si, pi + 1, pi, si)
    else if star != -1 then Greedy(s, p, at + 1, star + 1, star, at + 1)
    else false
  }

  lemma {:induction false} GreedyScans(s: string, p: string, si: nat, pi: nat, star: int, at: nat)
    requires at <= si <= |s| && pi <= |p| && -1 <= star < |p| && Scanning(s, p, si, pi, star, at)
    ensures Greedy(s, p, si, pi, star, at) ==> Like(s, p)
    ensures '%' !in s ==> (Greedy(s, p, si, pi, star, at) <==> Like(s, p))
    decreases |s| - at, |p| - pi
  {
    hide Like, Scanning;
    if si == |s| {
      ScanEnd(s, p, pi, star, at);
    } else if pi < |p| && (p[pi] == '_' || p[pi] == s[si]) {
      ScanTake(s, p, si, pi, star, at);
      GreedyScans(s, p, si + 1, pi + 1, star, at);
    } else if pi < |p| && p[pi] == '%' {
      ScanStar(s, p, si, pi, star, at);
      GreedyScans(s, p, si, pi + 1, pi, si);
    } else if star != -1 {
      ScanRetry(s, p, si, pi, star, at);
      GreedyScans(s, p, at + 1, star + 1, star, at + 1);
    } else if '%' !in s {
      ScanFail(s, p, si, pi, at);
    }
  }

  // The greedy matcher never says yes wrongly, and is exact on a text without `%`.
  lemma GreedyIsLike(s: string, p: string)
    ensures Greedy(s, p, 0, 0, -1, 0) ==> Like(s, p)
    ensures '%' !in s ==> (Greedy(s, p, 0, 0, -1, 0) <==> Like(s, p))
  {
    ScanBegins(s, p);
    GreedyScans(s, p, 0, 0, -1, 0);
  }

  // One `_` for every character of the text and one more, but `%` in place of number `i`.
  function Awkward(n: nat, i: nat): (p: string)
    ensures |p| == n + 1
  {
    seq(n + 1, k => if k == i then '%' else '_')
  }

  lemma {:induction false} AwkwardFails(s: string, i: nat, j: nat)
    requires i < |s| && s[i] == '%' && j <= |s|
    ensures !Greedy(s, Awkward(|s|, i), j, j, -1, 0)
    decreases |s| - j
  {
    if j < |s| {
      AwkwardFails(s, i, j + 1);
    } else {
      assert Awkward(|s|, i)[j] == '_';
    }
  }

  lemma AnyCharacters(s: string, p: string)
    requires |p| == |s| && forall i :: 0 <= i < |p| ==> p[i] == '_'
    ensures Like(s, p)
  {
    LiteralPrefix(s, p, "");
    assert p + "" == p && s[|p|..] == "" && s[..|p|] == s;
  }

  lemma LikeStar(s: string, p: string)
    requires Like(s, p)
    ensures Like(s, "%" + p)
  {
    assert ("%" + p)[1..] == p && s[0..] == s;
  }

  lemma AwkwardIsLike(s: string, i: nat)
    requires i < |s|
    ensures Like(s, Awkward(|s|, i))
  {
    hide Like;
    var p := Awkward(|s|, i);
    var q, r := p[..i], p[i + 1..];
    AnyCharacters(s[i..], r);
    LikeStar(s[i..], r);
    LiteralPrefix(s, q, "%" + r);
    assert p == q + ("%" + r);
  }

  // Exactly the texts without `%` are answered rightly for every pattern: on any other text the
  // literal comparison, which comes before the test for the wildcard, takes a `%` of the text.
  lemma GreedyExactIff(s: string)
    ensures (forall p :: Greedy(s, p, 0, 0, -1, 0) <==> Like(s, p)) <==> '%' !in s
  {
    if '%' in s {
      var i :| 0 <= i < |s| && s[i] == '%';
      AwkwardFails(s, i, 0);
      AwkwardIsLike(s, i);
    } else {
      forall p
        ensures Greedy(s, p, 0, 0, -1, 0) <==> Like(s, p)
      {
        GreedyIsLike(s, p);
      }
    }
  }

  // --- patterns that are answered rightly for every text -----------------------------------------------

  // Without `%` both ask for as many characters as the pattern has, one by one.
  lemma {:induction false} GreedyLiterally(s: string, p: string, i: nat)
    requires i <= |s| && i <= |p| && '%' !in p
    ensures Greedy(s, p, i, i, -1, 0) <==> Literally(s[i..], p[i..])
    decreases |s| - i
  {
    if i < |s| && i < |p| {
      GreedyLiterally(s, p, i + 1);
      assert Literally(s[i..], p[i..]) <==> (p[i] == '_' || p[i] == s[i]) && Literally(s[i + 1..], p[i + 1..]) by {
        assert s[i..][1..] == s[i + 1..] && p[i..][1..] == p[i + 1..];
        assert forall k :: 1 <= k < |p| - i ==> p[i..][k] == p[i + 1..][k - 1];
        assert forall k :: 1 <= k < |s| - i ==> s[i..][k] == s[i + 1..][k - 1];
      }
    } else if i < |p| {
      assert p[i] != '%';
    }
  }

  lemma LikeLiterally(s: string, p: string)
    requires '%' !in p
    ensures Like(s, p) <==> Literally(s, p)
  {
    LiteralPrefix(s, p, "");
    assert p + "" == p;
    if |p| <= |s| {
      assert |s| == |p| ==> s[..|p|] == s && s[|p|..] == "";
    }
  }

  // Where the last `%` of the pattern is.
  function LastStar(p: string): (l: nat)
    requires '%' in p
    ensures l < |p| && p[l] == '%' && '%' !in p[l + 1..]
  {
    var n := |p| - 1;
    if p[n] == '%' then n
    else
      assert p == p[..n] + [p[n]];
      var l := LastStar(p[..n]);
      assert p[l + 1..] == p[..n][l + 1..] + [p[n]];
      l
  }

  // The pattern's own text with one more character behind its last `%`.
  function Extended(p: string): (s: string)
    requires '%' in p
    ensures |s| == |p| + 1
  {
    p[..LastStar(p) + 1] + "x" + p[LastStar(p) + 1..]
  }

  lemma {:induction false} OwnText(p: string)
    ensures Like(p, p)
  {
    if p != "" {
      OwnText(p[1..]);
      assert p[0] == '%' ==> 1 <= |p|;
    }
  }

  lemma {:induction false} ExtendedIsLike(p: string, l: nat)
    requires l < |p| && p[l] == '%'
    ensures Like(p[..l + 1] + "x" + p[l + 1..], p)
    decreases l
  {
    var s := p[..l + 1] + "x" + p[l + 1..];
    if l == 0 {
      OwnText(p[1..]);
      assert s[2..] == p[1..];
    } else {
      ExtendedIsLike(p[1..], l - 1);
      assert s[1..] == p[1..][..l] + "x" + p[1..][l..];
    }
  }

  // The greedy loop takes the pattern's own characters one for one, past its last `%`, and remembers
  // no place to come back to.
  lemma {:induction false} ExtendedFails(p: string, i: nat)
    requires '%' in p && i <= |p|
    ensures !Greedy(Extended(p), p, i, i, -1, 0)
    decreases |p| - i
  {
    var l, s := LastStar(p), Extended(p);
    if i <= l {
      assert s[i] == p[i];
      ExtendedFails(p, i + 1);
    } else if i < |p| {
      assert p[i] == p[l + 1..][i - l - 1];
      if p[i] == '_' || p[i] == s[i] {
        ExtendedFails(p, i + 1);
      }
    }
  }

  // Exactly the patterns without `%` are answered rightly for every text.
  lemma GreedyPatternIff(p: string)
    ensures (forall s :: Greedy(s, p, 0, 0, -1, 0) <==> Like(s, p)) <==> '%' !in p
  {
    if '%' in p {
      ExtendedFails(p, 0);
      ExtendedIsLike(p, LastStar(p));
    } else {
      forall s ensures Greedy(s, p, 0, 0, -1, 0) <==> Like(s, p) {
        GreedyLiterally(s, p, 0);
        LikeLiterally(s, p);
        assert s[0..] == s && p[0..] == p;
      }
    }
  }

  // `match_chars`. The loop takes at most (|s| + 1) * (|p| + 1) turns.
  method MatchChars(s: string, p: string) returns (r: bool, ghost turns: nat)
    ensures r <==> Greedy(s, p, 0, 0, -1, 0)
    ensures turns <= (|s| + 1) * (|p| + 1)
  {
    var si, pi := 0, 0;
    var starPi, starSi := -1, 0;
    turns := 0;
    ghost var back := 0;
    while si < |s|
      invariant si <= |s| && pi <= |p| && starSi <= si && -1 <= starPi < |p| && (starPi >= 0 ==> starPi < pi)
      invariant Greedy(s, p, si, pi, starPi, starSi) == Greedy(s, p, 0, 0, -1, 0)
      invariant back <= starSi && turns <= back * (|p| + 1) + pi
      decreases |s| - starSi, |p| - pi
    {
      turns := turns + 1;
      if pi < |p| && (p[pi] == '_' || p[pi] == s[si]) {
        si, pi := si + 1, pi + 1;
      } else if pi < |p| && p[pi] == '%' {
        starPi, starSi := pi, si;
        pi := pi + 1;
      } else if starPi != -1 {
        OneMore(back, |p| + 1);
        starSi := starSi + 1;
        si, pi := starSi, starPi + 1;
        back := back + 1;
      } else {
        TurnBound(turns, back, |s|, |p|);
        return false, turns;
      }
    }
    TurnBound(turns, back, |s|, |p|);
    r := forall i :: pi <= i < |p| ==> p[i] == '%';
  }

  lemma ScanBegins(s: string, p: string)
    ensures Scanning(s, p, 0, 0, -1, 0)
  {
    hide Like;
    assert s[0..] == s && p[0..] == p;
  }

  lemma OneMore(a: nat, b: nat)
    ensures (a + 1) * b == a * b + b
  {
  }

  lemma TurnBound(turns: nat, back: nat, n: nat, m: nat)
    requires back <= n && turns <= back * (m + 1) + m + 1
    ensures turns <= (n + 1) * (m + 1)
  {
    OneMore(back, m + 1);
    assert (back + 1) * (m + 1) <= (n + 1) * (m + 1);
  }

  // --- the chunk matcher ------------------------------------------------------------------------------

  datatype Pattern =
    | Chunks(parts: seq<string>, anchoredStart: bool, anchoredEnd: bool)
    | Chars(p: string)

  // `split('%')`: one piece more than there are `%`.
  function Split(p: string): (ls: seq<string>)
    ensures |ls| > 0
  {
    if p == "" then [""]
    else
      var rest := Split(p[1..]);
      if p[0] == '%' then [""] + rest else [[p[0]] + rest[0]] + rest[1..]
  }

  function NonEmpty(ls: seq<string>): seq<string> {
    if ls == [] then [] else (if ls[0] == "" then [] else [ls[0]]) + NonEmpty(ls[1..])
  }

  function Compile(p: string): Pattern {
    if '_' in p then Chars(p)
    else Chunks(NonEmpty(Split(p)), p == "" || p[0] != '%', p == "" || p[|p| - 1] != '%')
  }

  predicate EndsWith(s: string, x: string) {
    |x| <= |s| && s[|s| - |x|..] == x
  }

  // The pieces occur in order anywhere in the text, the last one at its end if so anchored.
  ghost predicate Loose(s: string, parts: seq<string>, end: bool)
    decreases |parts|
  {
    if parts == [] then true
    else if |parts| == 1 && end then EndsWith(s, parts[0])
    else exists k :: 0 <= k <= |s| && parts[0] <= s[k..] && Loose(s[k + |parts[0]|..], parts[1..], end)
  }

  // What the pieces and the two anchors ask of a text.
  ghost predicate ChunkLike(s: string, parts: seq<string>, start: bool, end: bool) {
    if parts == [] then !(start && end) || s == ""
    else if !start then Loose(s, parts, end)
    else if |parts| == 1 then parts[0] <= s && (end ==> s == parts[0])
    else parts[0] <= s && Loose(s[|parts[0]|..], parts[1..], end)
  }

  lemma LooseFrom(s: string, parts: seq<string>, end: bool, k: nat)
    requires |parts| > 1 || (|parts| == 1 && !end)
    requires k <= |s| && parts[0] <= s[k..] && Loose(s[k + |parts[0]|..], parts[1..], end)
    ensures Loose(s, parts, end)
  {
  }

  lemma LooseSomewhere(s: string, parts: seq<string>, end: bool) returns (k: nat)
    requires |parts| > 1 || (|parts| == 1 && !end)
    requires Loose(s, parts, end)
    ensures k <= |s| && parts[0] <= s[k..] && Loose(s[k + |parts[0]|..], parts[1..], end)
  {
    k :| 0 <= k <= |s| && parts[0] <= s[k..] && Loose(s[k + |parts[0]|..], parts[1..], end);
  }

  lemma LooseEnd(s: string, x: string)
    ensures Loose(s, [x], true) <==> EndsWith(s, x)
  {
  }

  // A loose match of a later part of the text is one of the whole text.
  lemma LooseEarlier(s: string, k: nat, parts: seq<string>, end: bool)
    requires k <= |s| && Loose(s[k..], parts, end)
    ensures Loose(s, parts, end)
  {
    hide Loose;
    if parts == [] {
      LooseNothing(s, end);
    } else if |parts| == 1 && end {
      assert parts == [parts[0]];
      LooseEnd(s[k..], parts[0]);
      LooseEnd(s, parts[0]);
      assert s[|s| - |parts[0]|..] == s[k..][|s[k..]| - |parts[0]|..];
    } else {
      var j := LooseSomewhere(s[k..], parts, end);
      assert s[k..][j..] == s[k + j..];
      assert s[k..][j + |parts[0]|..] == s[k + j + |parts[0]|..];
      LooseFrom(s, parts, end, k + j);
    }
  }

  // The leftmost occurrence of the next piece is as good as any.
  lemma LooseLeftmost(s: string, parts: seq<string>, end: bool, first: nat)
    requires |parts| > 1 || (|parts| == 1 && !end)
    requires first <= |s| && parts[0] <= s[first..]
    requires forall k :: 0 <= k < first ==> !(parts[0] <= s[k..])
    ensures Loose(s, parts, end) <==> Loose(s[first + |parts[0]|..], parts[1..], end)
  {
    hide Loose;
    var rest := s[first + |parts[0]|..];
    if Loose(s, parts, end) {
      var k := LooseSomewhere(s, parts, end);
      assert k >= first;
      assert rest[k - first..] == s[k + |parts[0]|..];
      LooseEarlier(rest, k - first, parts[1..], end);
    }
    if Loose(rest, parts[1..], end) {
      LooseFrom(s, parts, end, first);
    }
  }

  // `str::find`.
  method Find(s: string, x: string) returns (k: int)
    ensures k >= 0 ==> k <= |s| && x <= s[k..] && forall j :: 0 <= j < k ==> !(x <= s[j..])
    ensures k < 0 ==> forall j :: 0 <= j <= |s| ==> !(x <= s[j..])
  {
    k := 0;
    while k <= |s|
      invariant 0 <= k <= |s| + 1
      invariant forall j :: 0 <= j < k ==> !(x <= s[j..])
    {
      if x <= s[k..] {
        return;
      }
      k := k + 1;
    }
    k := -1;
  }

  // What is still asked when the loop has come to piece `i` and the text is narrowed to `rest`.
  ghost predicate Left(rest: string, parts: seq<string>, i: nat, start: bool, end: bool)
    requires i <= |parts|
  {
    if i == 0 then ChunkLike(rest, parts, start, end)
    else if i == |parts| then !end || rest == ""
    else Loose(rest, parts[i..], end)
  }

  lemma LeftPrefix(s: string, parts: seq<string>, end: bool)
    requires parts != []
    ensures Left(s, parts, 0, true, end) <==> parts[0] <= s && Left(s[|parts[0]|..], parts, 1, true, end)
  {
    if |parts| == 1 && parts[0] <= s {
      assert s == parts[0] + s[|parts[0]|..];
    }
  }

  lemma LeftIsLoose(rest: string, parts: seq<string>, i: nat, start: bool, end: bool)
    requires i < |parts| && (i > 0 || !start)
    ensures Left(rest, parts, i, start, end) <==> Loose(rest, parts[i..], end)
  {
    assert parts[0..] == parts;
  }

  lemma LeftFound(rest: string, parts: seq<string>, i: nat, start: bool, end: bool, k: nat)
    requires i < |parts| && (i > 0 || !start) && !(i + 1 == |parts| && end)
    requires k <= |rest| && parts[i] <= rest[k..] && forall j :: 0 <= j < k ==> !(parts[i] <= rest[j..])
    ensures Left(rest, parts, i, start, end) <==> Left(rest[k + |parts[i]|..], parts, i + 1, start, end)
  {
    hide Loose, ChunkLike, Left;
    var now, next := parts[i..], rest[k + |parts[i]|..];
    assert now[0] == parts[i] && now[1..] == parts[i + 1..];
    LeftIsLoose(rest, parts, i, start, end);
    LooseLeftmost(rest, now, end, k);
    if i + 1 < |parts| {
      LeftIsLoose(next, parts, i + 1, start, end);
    } else {
      LeftEnds(next, parts, start, end);
      LooseNothing(next, end);
    }
  }

  lemma LooseNothing(s: string, end: bool)
    ensures Loose(s, [], end)
  {
  }

  lemma LeftMissing(rest: string, parts: seq<string>, i: nat, start: bool, end: bool)
    requires i < |parts| && (i > 0 || !start) && !(i + 1 == |parts| && end)
    requires forall j :: 0 <= j <= |rest| ==> !(parts[i] <= rest[j..])
    ensures !Left(rest, parts, i, start, end)
  {
    LeftIsLoose(rest, parts, i, start, end);
  }

  lemma LeftLast(rest: string, parts: seq<string>, i: nat, start: bool)
    requires i + 1 == |parts| && (i > 0 || !start)
    ensures Left(rest, parts, i, start, true) <==> EndsWith(rest, parts[i])
  {
    LeftIsLoose(rest, parts, i, start, true);
    assert parts[i..] == [parts[i]];
  }

  method MatchChunks(s: string, parts: seq<string>, start: bool, end: bool) returns (r: bool)
    ensures r <==> ChunkLike(s, parts, start, end)
  {
    hide Left, Loose;
    if parts == [] {
      return !(start && end) || s == "";
    }
    var rest := s;
    LeftEnds(s, parts, start, end);
    hide ChunkLike;
    for i := 0 to |parts|
      invariant ChunkLike(s, parts, start, end) <==> Left(rest, parts, i, start, end)
      invariant i == 0 ==> rest == s
    {
      var part, last := parts[i], i + 1 == |parts|;
      if i == 0 && start {
        LeftPrefix(rest, parts, end);
        if !(part <= rest) {
          return false;
        }
        rest := rest[|part|..];
      } else if last && end {
        LeftLast(rest, parts, i, start);
        return EndsWith(rest, part);
      } else {
        var k := Find(rest, part);
        if k < 0 {
          LeftMissing(rest, parts, i, start, end);
          return false;
        }
        LeftFound(rest, parts, i, start, end, k);
        rest := rest[k + |part|..];
      }
    }
    LeftEnds(rest, parts, start, end);
    r := !end || rest == "";
  }

  lemma LeftEnds(rest: string, parts: seq<string>, start: bool, end: bool)
    requires parts != []
    ensures Left(rest, parts, 0, start, end) <==> ChunkLike(rest, parts, start, end)
    ensures Left(rest, parts, |parts|, start, end) <==> !end || rest == ""
  {
  }

  // --- the pieces of a pattern ------------------------------------------------------------------------

  function FirstStar(p: string): (i: nat)
    ensures i <= |p| && (i < |p| ==> p[i] == '%')
    ensures forall j :: 0 <= j < i ==> p[j] != '%'
  {
    if p == "" || p[0] == '%' then 0 else 1 + FirstStar(p[1..])
  }

  lemma {:induction false} SplitFirst(p: string)
    ensures var i := FirstStar(p);
      Split(p) == [p[..i]] + if i < |p| then Split(p[i + 1..]) else []
    decreases |p|
  {
    if p != "" && p[0] != '%' {
      var i := FirstStar(p);
      SplitFirst(p[1..]);
      assert p[1..][..i - 1] == p[1..i] && [p[0]] + p[1..i] == p[..i];
      if i < |p| {
        assert p[1..][i..] == p[i + 1..];
      }
    }
  }

  // The last piece is not empty: the match reaches the end of the text.
  predicate Reaches(p: string) {
    p != "" && p[|p| - 1] != '%'
  }

  lemma {:induction false} PiecesOf(p: string)
    requires Reaches(p)
    ensures NonEmpty(Split(p)) != []
    decreases |p|
  {
    var i := FirstStar(p);
    SplitFirst(p);
    if i < |p| {
      assert p[i + 1..][|p| - i - 2] == p[|p| - 1];
      PiecesOf(p[i + 1..]);
      assert Split(p)[1..] == Split(p[i + 1..]);
    } else {
      assert Split(p)[0] == p;
    }
  }

  // The pieces from the first `%` on, or the only one.
  lemma PiecesFirst(p: string)
    ensures var i := FirstStar(p);
      NonEmpty(Split(p)) == (if i == 0 then [] else [p[..i]]) + if i < |p| then NonEmpty(Split(p[i + 1..])) else []
  {
    SplitFirst(p);
    assert Split(p)[1..] == if FirstStar(p) < |p| then Split(p[FirstStar(p) + 1..]) else [];
  }

  // Behind a `%`: some end of the text matches.
  ghost predicate Behind(s: string, p: string) {
    exists k :: 0 <= k <= |s| && Like(s[k..], p)
  }

  // A pattern without `_` asks for its first piece, and for the rest behind the `%` that follows.
  lemma LikeFirst(s: string, p: string)
    requires '_' !in p
    ensures var i := FirstStar(p);
      Like(s, p) <==> p[..i] <= s && if i < |p| then Behind(s[i..], p[i + 1..]) else |s| == i
  {
    var i := FirstStar(p);
    assert p == p[..i] + p[i..];
    LiteralPrefix(s, p[..i], p[i..]);
    if i <= |s| {
      assert Literally(s[..i], p[..i]) <==> s[..i] == p[..i];
    }
    if i < |p| {
      assert p[i..][1..] == p[i + 1..];
    }
  }

  // Behind a `%`, a pattern with another `%` in it: its first piece occurs, and behind that the rest.
  lemma BehindFrom(s: string, p: string, k: nat)
    requires '_' !in p && FirstStar(p) < |p| && k <= |s|
    requires var i := FirstStar(p); p[..i] <= s[k..] && Behind(s[k + i..], p[i + 1..])
    ensures Behind(s, p)
  {
    hide Like;
    LikeFirst(s[k..], p);
    assert s[k..][FirstStar(p)..] == s[k + FirstStar(p)..];
  }

  lemma BehindSomewhere(s: string, p: string) returns (k: nat)
    requires '_' !in p && FirstStar(p) < |p| && Behind(s, p)
    ensures k <= |s| && var i := FirstStar(p); p[..i] <= s[k..] && Behind(s[k + i..], p[i + 1..])
  {
    k :| 0 <= k <= |s| && Like(s[k..], p);
    hide Like, Behind;
    LikeFirst(s[k..], p);
    assert s[k..][FirstStar(p)..] == s[k + FirstStar(p)..];
  }

  lemma BehindLiteral(s: string, p: string)
    requires '_' !in p && '%' !in p
    ensures Behind(s, p) <==> EndsWith(s, p)
  {
    hide Like;
    assert FirstStar(p) == |p| && p[..|p|] == p;
    forall t: string
      ensures Like(t, p) <==> t == p
    {
      LikeFirst(t, p);
    }
    if Behind(s, p) {
      var k :| 0 <= k <= |s| && Like(s[k..], p);
      assert s[k..] == p;
    }
  }

  // Behind a `%`, the non-empty pieces in order are all that is asked.
  lemma {:induction false} BehindIsLoose(s: string, p: string)
    requires '_' !in p
    ensures Behind(s, p) <==> Loose(s, NonEmpty(Split(p)), Reaches(p))
    decreases |p|
  {
    hide Like, Behind, NonEmpty, Split;
    var i := FirstStar(p);
    PiecesFirst(p);
    if i == |p| {
      BehindLiteral(s, p);
      assert p[..i] == p;
      hide Loose;
      if p == "" {
        LooseNothing(s, false);
      } else {
        LooseEnd(s, p);
      }
    } else {
      hide Loose;
      var rest := p[i + 1..];
      assert Reaches(p) <==> Reaches(rest) by {
        assert i < |p| - 1 ==> rest[|rest| - 1] == p[|p| - 1];
      }
      forall t: string
        ensures Behind(t, rest) <==> Loose(t, NonEmpty(Split(rest)), Reaches(p))
      {
        BehindIsLoose(t, rest);
      }
      if Reaches(p) {
        PiecesOf(rest);
      }
      BehindStep(s, p, NonEmpty(Split(rest)), Reaches(p));
    }
  }

  lemma BehindStep(s: string, p: string, parts: seq<string>, end: bool)
    requires '_' !in p && FirstStar(p) < |p| && (end ==> parts != [])
    requires forall t: string :: Behind(t, p[FirstStar(p) + 1..]) <==> Loose(t, parts, end)
    ensures Behind(s, p) <==> Loose(s, (if FirstStar(p) == 0 then [] else [p[..FirstStar(p)]]) + parts, end)
  {
    hide Loose, Like, Behind;
    var i := FirstStar(p);
    var lit, rest := p[..i], p[i + 1..];
    var all := [lit] + parts;
    assert all[0] == lit && all[1..] == parts && [] + parts == parts;
    if Behind(s, p) {
      var k := BehindSomewhere(s, p);
      if i == 0 {
        LooseEarlier(s, k, parts, end);
      } else {
        LooseFrom(s, all, end, k);
      }
    }
    if i == 0 && Loose(s, parts, end) {
      assert s[0..] == s;
      BehindFrom(s, p, 0);
    }
    if i > 0 && Loose(s, all, end) {
      var k := LooseSomewhere(s, all, end);
      BehindFrom(s, p, k);
    }
  }

  // The compiled pieces with their anchors accept exactly the texts that LIKE accepts.
  lemma ChunksAreLike(s: string, p: string)
    requires '_' !in p
    ensures Compile(p).Chunks?
    ensures Like(s, p) <==> ChunkLike(s, Compile(p).parts, Compile(p).anchoredStart, Compile(p).anchoredEnd)
  {
    hide Like, Loose, NonEmpty, Split;
    var i := FirstStar(p);
    LikeFirst(s, p);
    PiecesFirst(p);
    if i < |p| {
      var rest := p[i + 1..];
      var parts := NonEmpty(Split(rest));
      assert Reaches(p) <==> Reaches(rest) by {
        assert i < |p| - 1 ==> rest[|rest| - 1] == p[|p| - 1];
      }
      if Reaches(rest) {
        PiecesOf(rest);
      }
      if p[..i] <= s {
        BehindIsLoose(s[i..], rest);
        if parts == [] {
          LooseNothing(s[i..], Reaches(p));
        }
      }
      assert s[0..] == s;
      assert i > 0 ==> ([p[..i]] + parts)[1..] == parts;
      assert i == 0 ==> [] + parts == parts;
    } else {
      assert p[..i] == p;
    }
  }

  // What a compiled pattern answers.
  ghost predicate Answers(p: string, s: string) {
    match Compile(p)
    case Chunks(parts, start, end) => ChunkLike(s, parts, start, end)
    case Chars(q) => Greedy(s, q, 0, 0, -1, 0)
  }

  // The patterns that are answered rightly for every text: those without `_` or without `%`.
  lemma MatchesExactIff(p: string)
    ensures (forall s :: Answers(p, s) <==> Like(s, p)) <==> '_' !in p || '%' !in p
  {
    hide Like, ChunkLike;
    if '_' in p {
      GreedyPatternIff(p);
      assert forall s :: Answers(p, s) <==> Greedy(s, p, 0, 0, -1, 0);
    } else {
      forall s ensures Answers(p, s) <==> Like(s, p) {
        ChunksAreLike(s, p);
      }
    }
  }

  // `Pattern::matches` on a compiled pattern: right for every pattern without `_` or without `%`, and
  // for every text without `%`; otherwise a "yes" is still right.
  method Matches(p: string, s: string) returns (r: bool)
    ensures r <==> Answers(p, s)
    ensures '_' !in p || '%' !in p || '%' !in s ==> (r <==> IsLike(s, p))
    ensures r ==> IsLike(s, p)
  {
    LikeIsPartition(s, p);
    MatchesExactIff(p);
    match Compile(p)
    case Chunks(parts, start, end) =>
      ChunksAreLike(s, p);
      r := MatchChunks(s, parts, start, end);
    case Chars(q) =>
      GreedyIsLike(s, p);
      ghost var turns;
      r, turns := MatchChars(s, q);
  }

  // The two matchers agree on a pattern without `_` and a text without `%`.
  lemma MatchersAgree(s: string, p: string)
    requires '_' !in p && '%' !in s
    ensures Compile(p).Chunks?
    ensures ChunkLike(s, Compile(p).parts, Compile(p).anchoredStart, Compile(p).anchoredEnd)
      <==> Greedy(s, p, 0, 0, -1, 0)
  {
    ChunksAreLike(s, p);
    GreedyIsLike(s, p);
  }
}
