/**
  Query normalisation: special characters and the words NOT, AND and OR become spaces, and the remaining
  fields are joined by single spaces. Its results are exactly the strings it leaves alone.
 */
module Sanitizer {
  import opened Text

  // ---------- the two replacements ----------

  predicate IsSpecial(c: char) {
    c in "\"^*(){}[]\\:;,"
  }

  /** The word characters of the pattern language: ASCII letters, digits and the underscore. */
  predicate IsWord(c: char) {
    'a' <= c <= 'z' || 'A' <= c <= 'Z' || '0' <= c <= '9' || c == '_'
  }

  predicate WordAt(q: string, i: int) {
    0 <= i < |q| && IsWord(q[i])
  }

  function Fold(c: char): char {
    if 'A' <= c <= 'Z' then c - 'A' + 'a' else c
  }

  function Folded(s: string): string {
    seq(|s|, i requires 0 <= i < |s| => Fold(s[i]))
  }

  predicate IsKeyword(s: string) {
    Folded(s) == "not" || Folded(s) == "and" || Folded(s) == "or"
  }

  predicate Boundary(q: string, i: int) {
    WordAt(q, i - 1) != WordAt(q, i)
  }

  predicate Matches(q: string, i: nat, n: nat) {
    i + n <= |q| && IsKeyword(q[i..i + n]) && Boundary(q, i) && Boundary(q, i + n)
  }

  /** The length of the keyword the pattern matches at i, or 0. */
  function MatchAt(q: string, i: nat): nat {
    if Matches(q, i, 3) then 3 else if Matches(q, i, 2) then 2 else 0
  }

  function WithoutSpecials(q: string): string {
    seq(|q|, i requires 0 <= i < |q| => if IsSpecial(q[i]) then ' ' else q[i])
  }

  function WithoutKeywords(q: string, i: nat): string
    decreases |q| - i
  {
    if i >= |q| then ""
    else if MatchAt(q, i) > 0 then " " + WithoutKeywords(q, i + MatchAt(q, i))
    else [q[i]] + WithoutKeywords(q, i + 1)
  }

  // ---------- trimming, splitting and joining ----------

  function TrimLeft(s: string): string {
    if s != "" && IsSpace(s[0]) then TrimLeft(s[1..]) else s
  }

  function TrimRight(s: string): string {
    if s != "" && IsSpace(s[|s| - 1]) then TrimRight(s[..|s| - 1]) else s
  }

  function TrimSpace(s: string): string {
    TrimRight(TrimLeft(s))
  }

  /** How many characters come before the first white space. */
  function FieldLength(s: string): (n: nat)
    ensures n <= |s|
    ensures s != "" && !IsSpace(s[0]) ==> n > 0
    ensures forall i :: 0 <= i < n ==> !IsSpace(s[i])
    ensures n < |s| ==> IsSpace(s[n])
  {
    if s == "" || IsSpace(s[0]) then 0 else 1 + FieldLength(s[1..])
  }

  function Fields(s: string): seq<string>
    decreases |s|
  {
    if s == "" then []
    else if IsSpace(s[0]) then Fields(s[1..])
    else [s[..FieldLength(s)]] + Fields(s[FieldLength(s)..])
  }

  function Join(fields: seq<string>): string {
    if fields == [] then ""
    else if |fields| == 1 then fields[0]
    else fields[0] + " " + Join(fields[1..])
  }

  // ---------- the function ----------

  datatype Sanitized = Query(text: string) | Empty | OnlyOperators

  function Sanitize(q: string): Sanitized {
    var t := TrimSpace(q);
    if t == "" then Empty
    else
      var r := Join(Fields(WithoutKeywords(WithoutSpecials(t), 0)));
      if r == "" then OnlyOperators else Query(r)
  }

  // ---------- what it promises ----------

  /** q[i..j] is a word that no word character extends. */
  predicate MaximalWord(q: string, i: int, j: int) {
    0 <= i < j <= |q| && (forall k :: i <= k < j ==> IsWord(q[k])) && !WordAt(q, i - 1) && !WordAt(q, j)
  }

  ghost predicate NoKeyword(q: string) {
    forall i, j :: MaximalWord(q, i, j) ==> !IsKeyword(q[i..j])
  }

  /** Only plain spaces, none at either end, no two together. */
  predicate SingleSpaced(q: string) {
    forall i :: 0 <= i < |q| && IsSpace(q[i]) ==> q[i] == ' ' && 0 < i < |q| - 1 && !IsSpace(q[i + 1])
  }

  ghost predicate Normal(q: string) {
    q != "" && SingleSpaced(q) && (forall i :: 0 <= i < |q| ==> !IsSpecial(q[i])) && NoKeyword(q)
  }

  ghost predicate InKeyword(q: string, i: int) {
    exists a, b :: a <= i < b && MaximalWord(q, a, b) && IsKeyword(q[a..b])
  }

  ghost predicate Survives(q: string, i: int) {
    0 <= i < |q| && !IsSpace(q[i]) && !IsSpecial(q[i]) && !InKeyword(q, i)
  }

  /** The surviving characters from position i on, in order. */
  ghost function Survivors(q: string, i: nat): string
    decreases |q| - i
  {
    if i >= |q| then "" else (if Survives(q, i) then [q[i]] else "") + Survivors(q, i + 1)
  }

  function NonSpaces(s: string): string {
    if s == "" then "" else (if IsSpace(s[0]) then "" else [s[0]]) + NonSpaces(s[1..])
  }

  // ---------- words, seen from the left ----------

  function RunLength(s: string): (n: nat)
    ensures n <= |s|
    ensures forall i :: 0 <= i < n ==> IsWord(s[i])
    ensures !WordAt(s, n)
  {
    if s == "" || !IsWord(s[0]) then 0 else 1 + RunLength(s[1..])
  }

  /** A keyword starts here, when the character before is a word character (`prev`) or is not. */
  predicate StartsKeyword(prev: bool, s: string) {
    !prev && IsKeyword(s[..RunLength(s)])
  }

  function Replaced(prev: bool, s: string): string
    decreases |s|
  {
    if s == "" then ""
    else if StartsKeyword(prev, s) then " " + Replaced(true, s[RunLength(s)..])
    else [s[0]] + Replaced(IsWord(s[0]), s[1..])
  }

  predicate Clean(prev: bool, s: string)
    decreases |s|
  {
    s != "" ==> !StartsKeyword(prev, s) && Clean(IsWord(s[0]), s[1..])
  }

  lemma KeywordShape(s: string)
    requires IsKeyword(s)
    ensures |s| == 2 || |s| == 3
    ensures forall i :: 0 <= i < |s| ==> IsWord(s[i])
  {
    assert |Folded(s)| == |s|;
    forall i | 0 <= i < |s| ensures IsWord(s[i]) {
      assert Fold(s[i]) == Folded(s)[i];
      assert 'a' <= Folded(s)[i] <= 'z';
    }
  }

  lemma {:induction false} RunLengthAt(s: string, n: nat)
    requires n <= |s| && (forall i :: 0 <= i < n ==> IsWord(s[i])) && !WordAt(s, n)
    ensures RunLength(s) == n
  {
    if n == 0 {
    } else {
      RunLengthAt(s[1..], n - 1);
    }
  }

  /** Where a maximal word that is a keyword starts, the pattern matches it. */
  lemma KeywordMatches(q: string, i: nat)
    requires i <= |q| && StartsKeyword(WordAt(q, i - 1), q[i..])
    ensures MatchAt(q, i) > 0
  {
    var s := q[i..];
    var n := RunLength(s);
    assert s[..n] == q[i..i + n];
    assert WordAt(s, n) == WordAt(q, i + n);
    KeywordShape(s[..n]);
    assert s[0] == q[i] && s[n - 1] == q[i + n - 1];
    assert Matches(q, i, n);
  }

  /** What the pattern matches is a maximal word. */
  lemma MatchIsRun(q: string, i: nat)
    requires i <= |q| && MatchAt(q, i) > 0
    ensures MatchAt(q, i) == RunLength(q[i..]) && !WordAt(q, i + MatchAt(q, i))
    ensures StartsKeyword(WordAt(q, i - 1), q[i..])
  {
    var s, m := q[i..], MatchAt(q, i);
    KeywordShape(q[i..i + m]);
    assert forall k :: 0 <= k < m ==> s[k] == q[i..i + m][k];
    assert WordAt(q, i) && WordAt(q, i + m - 1);
    assert WordAt(s, m) == WordAt(q, i + m);
    RunLengthAt(s, m);
    assert s[..m] == q[i..i + m];
  }

  /** The pattern matches at i exactly when the maximal word starting there is a keyword. */
  lemma MatchIsMaximalKeyword(q: string, i: nat)
    requires i <= |q|
    ensures MatchAt(q, i) > 0 <==> StartsKeyword(WordAt(q, i - 1), q[i..])
    ensures MatchAt(q, i) > 0 ==> MatchAt(q, i) == RunLength(q[i..]) && !WordAt(q, i + MatchAt(q, i))
  {
    hide MatchAt, StartsKeyword;
    if StartsKeyword(WordAt(q, i - 1), q[i..]) { KeywordMatches(q, i); }
    if MatchAt(q, i) > 0 { MatchIsRun(q, i); }
  }

  lemma {:induction false} ReplacementFromLeft(q: string, i: nat)
    requires i <= |q|
    ensures WithoutKeywords(q, i) == Replaced(WordAt(q, i - 1), q[i..])
    decreases |q| - i
  {
    if i == |q| {
    } else {
      MatchIsMaximalKeyword(q, i);
      var n := MatchAt(q, i);
      if n > 0 {
        ReplacementFromLeft(q, i + n);
        assert q[i..][n..] == q[i + n..];
        KeywordShape(q[i..][..n]);
        assert WordAt(q, i + n - 1);
      } else {
        ReplacementFromLeft(q, i + 1);
        assert q[i..][1..] == q[i + 1..];
      }
    }
  }

  /** Copying a word copies all of it. */
  lemma {:induction false} RunIsCopied(s: string)
    ensures RunLength(Replaced(true, s)) == RunLength(s)
    ensures Replaced(true, s)[..RunLength(s)] == s[..RunLength(s)]
    decreases |s|
  {
    if s == "" || !IsWord(s[0]) {
    } else {
      RunIsCopied(s[1..]);
      var r := Replaced(true, s);
      assert r[1..] == Replaced(true, s[1..]);
      var n := RunLength(s);
      assert r[..n] == [r[0]] + r[1..][..n - 1];
      assert s[..n] == [s[0]] + s[1..][..n - 1];
    }
  }

  lemma NoWordNoDifference(s: string)
    requires !WordAt(s, 0)
    ensures Replaced(true, s) == Replaced(false, s)
  {
    if s != "" { assert s[..RunLength(s)] == ""; KeywordNotEmpty(); }
  }

  lemma KeywordNotEmpty()
    ensures !IsKeyword("")
  {
    assert |Folded("")| == 0;
  }

  /** Where the replacement copies a character, it does not make a keyword start there. */
  lemma CopiedStart(prev: bool, s: string)
    requires s != "" && !StartsKeyword(prev, s)
    ensures !StartsKeyword(prev, Replaced(prev, s))
  {
    hide IsKeyword, IsWord;
    KeywordNotEmpty();
    var copied := Replaced(IsWord(s[0]), s[1..]);
    assert s == [s[0]] + s[1..];
    FirstWord(s[0], s[1..]);
    FirstWord(s[0], copied);
    if IsWord(s[0]) { RunIsCopied(s[1..]); }
  }

  /** The word a string starts with. */
  lemma FirstWord(c: char, t: string)
    ensures ([c] + t)[..RunLength([c] + t)] == if IsWord(c) then [c] + t[..RunLength(t)] else ""
  {
    assert ([c] + t)[1..] == t;
  }

  lemma {:induction false} ReplacementIsClean(prev: bool, s: string)
    ensures Clean(prev, Replaced(prev, s))
    decreases |s|
  {
    if s == "" {
    } else if StartsKeyword(prev, s) {
      KeywordReplaced(prev, s);
      ReplacementIsClean(false, s[RunLength(s)..]);
    } else {
      CopiedStart(prev, s);
      hide StartsKeyword, IsWord;
      ReplacementIsClean(IsWord(s[0]), s[1..]);
      assert Replaced(prev, s)[1..] == Replaced(IsWord(s[0]), s[1..]);
    }
  }

  lemma KeywordReplaced(prev: bool, s: string)
    requires StartsKeyword(prev, s)
    ensures 0 < RunLength(s) && Replaced(prev, s) == " " + Replaced(false, s[RunLength(s)..])
    ensures Clean(prev, Replaced(prev, s)) <==> Clean(false, Replaced(false, s[RunLength(s)..]))
  {
    KeywordNotEmpty();
    KeywordShape(s[..RunLength(s)]);
    hide IsKeyword;
    var rest := s[RunLength(s)..];
    assert WordAt(rest, 0) == WordAt(s, RunLength(s));
    NoWordNoDifference(rest);
    var r := Replaced(prev, s);
    assert r[1..] == Replaced(false, rest);
    assert r[..RunLength(r)] == "";
  }

  lemma {:induction false} CleanIsUntouched(prev: bool, s: string)
    requires Clean(prev, s)
    ensures Replaced(prev, s) == s
    decreases |s|
  {
    if s == "" {
    } else {
      CleanIsUntouched(IsWord(s[0]), s[1..]);
    }
  }

  /** Clean means: no maximal word from i on is a keyword. */
  /** A keyword starts at i exactly when a maximal word there is one. */
  lemma KeywordHere(q: string, i: nat)
    requires i < |q|
    ensures StartsKeyword(WordAt(q, i - 1), q[i..]) <==> exists b :: MaximalWord(q, i, b) && IsKeyword(q[i..b])
  {
    var s := q[i..];
    var n := RunLength(s);
    assert s[..n] == q[i..i + n];
    assert WordAt(s, n) == WordAt(q, i + n);
    KeywordNotEmpty();
    if StartsKeyword(WordAt(q, i - 1), s) {
      assert forall k :: i <= k < i + n ==> q[k] == s[k - i];
      assert MaximalWord(q, i, i + n);
    }
    if b :| MaximalWord(q, i, b) && IsKeyword(q[i..b]) {
      assert WordAt(s, b - i) == WordAt(q, b);
      RunLengthAt(s, b - i);
    }
  }

  lemma {:induction false} CleanMeansNoKeyword(q: string, i: nat)
    requires i <= |q|
    ensures Clean(WordAt(q, i - 1), q[i..]) <==> forall a, b :: i <= a && MaximalWord(q, a, b) ==> !IsKeyword(q[a..b])
    decreases |q| - i
  {
    if i == |q| {
    } else {
      assert q[i..][1..] == q[i + 1..];
      CleanMeansNoKeyword(q, i + 1);
      KeywordHere(q, i);
      hide StartsKeyword, IsKeyword;
    }
  }

  // ---------- splitting and joining keep what matters ----------

  lemma {:induction false} FieldsAreFields(s: string)
    ensures forall k :: 0 <= k < |Fields(s)| ==> IsField(Fields(s)[k])
    decreases |s|
  {
    if s == "" {
    } else {
      if IsSpace(s[0]) { FieldsAreFields(s[1..]); }
      else { FieldsAreFields(s[FieldLength(s)..]); }
    }
  }

  predicate IsField(f: string) {
    f != "" && forall i :: 0 <= i < |f| ==> !IsSpace(f[i])
  }

  lemma {:induction false} FieldLengthAt(s: string, n: nat)
    requires n <= |s| && (forall i :: 0 <= i < n ==> !IsSpace(s[i])) && (n < |s| ==> IsSpace(s[n]))
    ensures FieldLength(s) == n
  {
    if n == 0 {
    } else {
      FieldLengthAt(s[1..], n - 1);
    }
  }

  lemma {:induction false} SplitOfJoin(fs: seq<string>)
    requires forall k :: 0 <= k < |fs| ==> IsField(fs[k])
    ensures Fields(Join(fs)) == fs
    decreases |fs|
  {
    if fs == [] {
    } else {
      var s, n := Join(fs), |fs[0]|;
      assert IsField(fs[0]);
      if |fs| == 1 {
        FieldLengthAt(s, n);
        assert s[..n] == fs[0] && s[n..] == "";
      } else {
        SplitOfJoin(fs[1..]);
        assert s[n] == ' ' && s[..n] == fs[0];
        FieldLengthAt(s, n);
        assert s[n..][1..] == Join(fs[1..]);
        assert Fields(s[n..]) == Fields(Join(fs[1..]));
      }
    }
  }

  lemma {:induction false} JoinIsSingleSpaced(fs: seq<string>)
    requires forall k :: 0 <= k < |fs| ==> IsField(fs[k])
    ensures SingleSpaced(Join(fs))
    ensures fs != [] ==> Join(fs) != "" && !IsSpace(Join(fs)[0])
    decreases |fs|
  {
    if fs == [] {
    } else {
      assert IsField(fs[0]);
      if |fs| > 1 {
        JoinIsSingleSpaced(fs[1..]);
        var s, n, t := Join(fs), |fs[0]|, Join(fs[1..]);
        forall i | 0 <= i < |s| && IsSpace(s[i])
          ensures s[i] == ' ' && 0 < i < |s| - 1 && !IsSpace(s[i + 1])
        {
          assert i >= n by { assert forall k :: 0 <= k < n ==> s[k] == fs[0][k]; }
          if i > n { assert s[i] == t[i - n - 1]; }
          if i == n { assert s[n + 1] == t[0]; }
        }
      }
    }
  }

  lemma RestIsSingleSpaced(s: string, n: nat)
    requires SingleSpaced(s) && n < |s| && IsSpace(s[n])
    ensures s[n] == ' ' && n + 1 < |s| && !IsSpace(s[n + 1])
    ensures SingleSpaced(s[n + 1..])
  {
    var t := s[n + 1..];
    forall i | 0 <= i < |t| && IsSpace(t[i])
      ensures t[i] == ' ' && 0 < i < |t| - 1 && !IsSpace(t[i + 1])
    {
      assert t[i] == s[n + 1 + i];
    }
  }

  /** A single-spaced string is the join of its fields. */
  lemma {:induction false} SingleSpacedIsJoin(s: string)
    requires SingleSpaced(s)
    ensures Join(Fields(s)) == s
    decreases |s|
  {
    if s == "" {
    } else {
      assert !IsSpace(s[0]);
      var n := FieldLength(s);
      if n < |s| {
        var t := s[n + 1..];
        RestIsSingleSpaced(s, n);
        hide IsSpace, SingleSpaced;
        SingleSpacedIsJoin(t);
        assert s[n..][1..] == t;
        assert Fields(s) == [s[..n]] + Fields(t);
        assert t != "" && Fields(t) != [];
        assert s == s[..n] + " " + t;
      } else {
        assert s[..n] == s && s[n..] == "";
      }
    }
  }

  lemma {:induction false} NonSpacesConcat(a: string, b: string)
    ensures NonSpaces(a + b) == NonSpaces(a) + NonSpaces(b)
    decreases |a|
  {
    if a == "" {
      assert a + b == b;
    } else {
      assert (a + b)[1..] == a[1..] + b;
      NonSpacesConcat(a[1..], b);
    }
  }

  lemma {:induction false} SqueezeKeepsNonSpaces(s: string)
    ensures NonSpaces(Join(Fields(s))) == NonSpaces(s)
    decreases |s|
  {
    if s == "" {
    } else {
      if IsSpace(s[0]) {
        SqueezeKeepsNonSpaces(s[1..]);
      } else {
        var n := FieldLength(s);
        var f, t := s[..n], s[n..];
        SqueezeKeepsNonSpaces(t);
        assert s == f + t;
        NonSpacesConcat(f, t);
        if Fields(t) == [] {
          assert Join(Fields(s)) == f;
        } else {
          assert Fields(s)[1..] == Fields(t);
          NonSpacesConcat(f + " ", Join(Fields(t)));
          NonSpacesConcat(f, " ");
        }
      }
    }
  }

  /** Cleanness of a concatenation, cut where a word cannot straddle. */
  lemma {:induction false} CleanConcat(prev: bool, a: string, b: string)
    requires !WordAt(b, 0)
    ensures Clean(prev, a + b) <==> Clean(prev, a) && Clean(false, b)
    decreases |a|
  {
    if a == "" {
      assert a + b == b;
      KeywordNotEmpty();
      if b != "" { assert b[..RunLength(b)] == ""; }
    } else {
      assert (a + b)[1..] == a[1..] + b;
      CleanConcat(IsWord(a[0]), a[1..], b);
      RunOfConcat(a, b);
    }
  }

  lemma RunOfConcat(a: string, b: string)
    requires !WordAt(b, 0)
    ensures RunLength(a + b) == RunLength(a)
    ensures (a + b)[..RunLength(a)] == a[..RunLength(a)]
  {
    var n := RunLength(a);
    assert forall i :: 0 <= i < n ==> (a + b)[i] == a[i];
    assert WordAt(a + b, n) == if n < |a| then WordAt(a, n) else WordAt(b, 0);
    RunLengthAt(a + b, n);
  }

  lemma SpaceIsNoWord(c: char)
    requires IsSpace(c)
    ensures !IsWord(c)
  {
  }

  /** A clean string, a space and a clean string again are clean together. */
  lemma CleanAcrossSpace(f: string, j: string)
    requires Clean(false, f) && Clean(false, j)
    ensures Clean(false, f + (" " + j))
  {
    KeywordNotEmpty();
    SpaceIsNoWord(' ');
    assert (" " + j)[1..] == j;
    assert (" " + j)[..RunLength(" " + j)] == "";
    CleanConcat(false, f, " " + j);
  }

  /** Where a clean string is cut at a space, or loses one in front, it stays clean. */
  lemma CleanParts(s: string)
    requires s != "" && Clean(false, s)
    ensures IsSpace(s[0]) ==> Clean(false, s[1..])
    ensures Clean(false, s[..FieldLength(s)]) && Clean(false, s[FieldLength(s)..])
  {
    var n := FieldLength(s);
    var f, t := s[..n], s[n..];
    assert s == f + t;
    if IsSpace(s[0]) { SpaceIsNoWord(s[0]); }
    if t != "" { SpaceIsNoWord(t[0]); }
    CleanConcat(false, f, t);
  }

  lemma {:induction false} SqueezeIsClean(s: string)
    requires Clean(false, s)
    ensures Clean(false, Join(Fields(s)))
    decreases |s|
  {
    hide IsSpace, IsWord, Clean;
    if s == "" {
      assert Join(Fields(s)) == s;
    } else {
      CleanParts(s);
      if IsSpace(s[0]) {
        SqueezeIsClean(s[1..]);
      } else {
        var f, t := s[..FieldLength(s)], s[FieldLength(s)..];
        SqueezeIsClean(t);
        assert Fields(s) == [f] + Fields(t) && Fields(s)[1..] == Fields(t);
        if Fields(t) == [] {
          assert Join(Fields(s)) == f;
        } else {
          assert Join(Fields(s)) == f + (" " + Join(Fields(t)));
          CleanAcrossSpace(f, Join(Fields(t)));
        }
      }
    }
  }

  lemma {:induction false} SqueezeCharacters(s: string, bad: char)
    requires bad != ' ' && bad !in s
    ensures bad !in Join(Fields(s))
    decreases |s|
  {
    if s == "" {
    } else {
      if IsSpace(s[0]) {
        SqueezeCharacters(s[1..], bad);
      } else {
        SqueezeCharacters(s[FieldLength(s)..], bad);
        assert Fields(s)[1..] == Fields(s[FieldLength(s)..]);
      }
    }
  }

  lemma {:induction false} ReplacementCharacters(prev: bool, s: string, bad: char)
    requires bad != ' ' && bad !in s
    ensures bad !in Replaced(prev, s)
    decreases |s|
  {
    if s == "" {
    } else {
      if StartsKeyword(prev, s) { KeywordNotEmpty(); ReplacementCharacters(true, s[RunLength(s)..], bad); }
      else { ReplacementCharacters(IsWord(s[0]), s[1..], bad); }
    }
  }

  // ---------- trimming first changes nothing ----------

  function Squeezed(s: string): string {
    Join(Fields(Replaced(false, WithoutSpecials(s))))
  }

  lemma SpaceInFront(s: string)
    requires s != "" && IsSpace(s[0])
    ensures Squeezed(s) == Squeezed(s[1..])
  {
    var t := WithoutSpecials(s);
    SpaceIsNoWord(s[0]);
    SpaceIsNoSpecial(s[0]);
    assert t[1..] == WithoutSpecials(s[1..]);
    KeywordNotEmpty();
    assert t[..RunLength(t)] == "";
    assert Replaced(false, t)[1..] == Replaced(false, t[1..]);
  }

  lemma SpaceIsNoSpecial(c: char)
    requires IsSpace(c)
    ensures !IsSpecial(c)
  {
  }

  lemma ReplacedUnfolds(prev: bool, s: string)
    ensures s == "" ==> Replaced(prev, s) == ""
    ensures s != "" && StartsKeyword(prev, s) ==>
              RunLength(s) > 0 && Replaced(prev, s) == " " + Replaced(true, s[RunLength(s)..])
    ensures s != "" && !StartsKeyword(prev, s) ==> Replaced(prev, s) == [s[0]] + Replaced(IsWord(s[0]), s[1..])
  {
    KeywordNotEmpty();
  }

  lemma NoKeywordInSpace(prev: bool, c: char)
    requires IsSpace(c)
    ensures Replaced(prev, [c]) == [c]
  {
    SpaceIsNoWord(c);
    KeywordNotEmpty();
    assert [c][..RunLength([c])] == "";
    assert [c][1..] == "";
  }

  lemma SpaceStartsNothing(prev: bool, s: string, c: char)
    requires IsSpace(c)
    ensures StartsKeyword(prev, s + [c]) == StartsKeyword(prev, s)
    ensures RunLength(s + [c]) == RunLength(s)
  {
    SpaceIsNoWord(c);
    RunOfConcat(s, [c]);
    hide IsKeyword;
  }

  lemma {:induction false} SpaceBehind(prev: bool, s: string, c: char)
    requires IsSpace(c)
    ensures Replaced(prev, s + [c]) == Replaced(prev, s) + [c]
    decreases |s|
  {
    hide IsWord, IsKeyword, IsSpace, StartsKeyword, Replaced, RunLength;
    ReplacedUnfolds(prev, s);
    if s == "" {
      NoKeywordInSpace(prev, c);
      assert s + [c] == [c];
    } else {
      ReplacedUnfolds(prev, s + [c]);
      SpaceStartsNothing(prev, s, c);
      var n := RunLength(s);
      if StartsKeyword(prev, s) {
        assert (s + [c])[n..] == s[n..] + [c];
        SpaceBehind(true, s[n..], c);
      } else {
        assert (s + [c])[1..] == s[1..] + [c];
        SpaceBehind(IsWord(s[0]), s[1..], c);
      }
    }
  }

  lemma {:induction false} FieldsSpaceBehind(s: string, c: char)
    requires IsSpace(c)
    ensures Fields(s + [c]) == Fields(s)
    decreases |s|
  {
    if s == "" {
      assert (s + [c])[1..] == "";
    } else if IsSpace(s[0]) {
      assert (s + [c])[1..] == s[1..] + [c];
      FieldsSpaceBehind(s[1..], c);
    } else {
      var n := FieldLength(s);
      assert forall i :: 0 <= i < n ==> (s + [c])[i] == s[i];
      FieldLengthAt(s + [c], n);
      assert (s + [c])[..n] == s[..n];
      assert (s + [c])[n..] == s[n..] + [c];
      FieldsSpaceBehind(s[n..], c);
    }
  }

  lemma {:induction false} TrimLeftIrrelevant(s: string)
    ensures Squeezed(TrimLeft(s)) == Squeezed(s)
    decreases |s|
  {
    if s == "" || !IsSpace(s[0]) {
    } else {
      SpaceInFront(s);
      TrimLeftIrrelevant(s[1..]);
    }
  }

  lemma {:induction false} TrimRightIrrelevant(s: string)
    ensures Squeezed(TrimRight(s)) == Squeezed(s)
    decreases |s|
  {
    if s == "" || !IsSpace(s[|s| - 1]) {
    } else {
      var front, c := s[..|s| - 1], s[|s| - 1];
      SpaceIsNoSpecial(c);
      assert WithoutSpecials(s) == WithoutSpecials(front) + [c];
      SpaceBehind(false, WithoutSpecials(front), c);
      FieldsSpaceBehind(Replaced(false, WithoutSpecials(front)), c);
      TrimRightIrrelevant(front);
    }
  }

  lemma SanitizedText(q: string)
    ensures Sanitize(q).Query? <==> Squeezed(q) != ""
    ensures Sanitize(q).Query? ==> Sanitize(q).text == Squeezed(q)
  {
    var t := TrimSpace(q);
    TrimLeftIrrelevant(q);
    TrimRightIrrelevant(TrimLeft(q));
    assert WithoutSpecials(t)[0..] == WithoutSpecials(t);
    ReplacementFromLeft(WithoutSpecials(t), 0);
  }

  lemma {:induction false} TrimLeftShape(s: string)
    ensures TrimLeft(s) == "" || !IsSpace(TrimLeft(s)[0])
    ensures s != "" && !IsSpace(s[0]) ==> TrimLeft(s) == s
    ensures |TrimLeft(s)| <= |s| && (s != "" && IsSpace(s[0]) ==> |TrimLeft(s)| < |s|)
    decreases |s|
  {
    if s == "" || !IsSpace(s[0]) {
    } else {
      TrimLeftShape(s[1..]);
    }
  }

  lemma {:induction false} TrimRightShape(s: string)
    ensures TrimRight(s) <= s
    ensures TrimRight(s) == "" || !IsSpace(TrimRight(s)[|TrimRight(s)| - 1])
    ensures s != "" && IsSpace(s[|s| - 1]) ==> |TrimRight(s)| < |s|
    decreases |s|
  {
    if s == "" || !IsSpace(s[|s| - 1]) {
    } else {
      TrimRightShape(s[..|s| - 1]);
    }
  }

  /** Trimming leaves a string alone exactly when neither end is white space; so trimming twice is trimming once. */
  lemma TrimmedEnds(s: string)
    ensures TrimSpace(s) == s <==> s == "" || (!IsSpace(s[0]) && !IsSpace(s[|s| - 1]))
    ensures TrimSpace(TrimSpace(s)) == TrimSpace(s)
  {
    TrimLeftShape(s);
    TrimRightShape(TrimLeft(s));
    var t := TrimSpace(s);
    TrimLeftShape(t);
    TrimRightShape(TrimLeft(t));
  }

  // ---------- the main results ----------

  /** Every result is in normal form: single-spaced fields, no special character, no keyword among its words. */
  lemma SanitizedIsNormal(q: string)
    requires Sanitize(q).Query?
    ensures Normal(Sanitize(q).text)
  {
    SanitizedText(q);
    var s := WithoutSpecials(q);
    var r := Replaced(false, s);
    var t := Squeezed(q);
    FieldsAreFields(r);
    JoinIsSingleSpaced(Fields(r));
    ReplacementIsClean(false, s);
    SqueezeIsClean(r);
    assert t[0..] == t;
    CleanMeansNoKeyword(t, 0);
    forall i | 0 <= i < |t| ensures !IsSpecial(t[i]) {
      if IsSpecial(t[i]) {
        ReplacementCharacters(false, s, t[i]);
        SqueezeCharacters(r, t[i]);
      }
    }
  }

  /** The normal forms are exactly the strings that sanitizing leaves alone; so sanitizing twice is sanitizing once. */
  lemma NormalIsFixed(q: string)
    ensures Normal(q) <==> Sanitize(q) == Query(q)
  {
    if Normal(q) {
      SanitizedText(q);
      assert WithoutSpecials(q) == q;
      assert q[0..] == q;
      CleanMeansNoKeyword(q, 0);
      CleanIsUntouched(false, q);
      SingleSpacedIsJoin(q);
    }
    if Sanitize(q) == Query(q) { SanitizedIsNormal(q); }
  }

  lemma SanitizeIdempotent(q: string)
    requires Sanitize(q).Query?
    ensures Sanitize(Sanitize(q).text) == Sanitize(q)
  {
    SanitizedIsNormal(q);
    NormalIsFixed(Sanitize(q).text);
  }

  lemma MaximalWordsUnmoved(q: string, i: int, j: int)
    ensures MaximalWord(WithoutSpecials(q), i, j) <==> MaximalWord(q, i, j)
    ensures MaximalWord(q, i, j) ==> WithoutSpecials(q)[i..j] == q[i..j]
  {
    var s := WithoutSpecials(q);
    assert forall k :: 0 <= k < |q| && IsWord(q[k]) ==> !IsSpecial(q[k]);
    assert forall k :: 0 <= k < |q| ==> (IsWord(s[k]) <==> IsWord(q[k]));
    if MaximalWord(q, i, j) {
      assert forall k :: i <= k < j ==> s[k] == q[k];
    }
  }

  /** Outside a keyword at position i: no keyword spans it from before. */
  ghost predicate Outside(q: string, i: int) {
    forall a, b :: a < i < b && MaximalWord(q, a, b) ==> !IsKeyword(q[a..b])
  }

  lemma AtKeyword(q: string, i: nat)
    requires i <= |q| && MatchAt(WithoutSpecials(q), i) > 0
    ensures var n := MatchAt(WithoutSpecials(q), i); i + n <= |q| && MaximalWord(q, i, i + n) && IsKeyword(q[i..i + n])
  {
    var s := WithoutSpecials(q);
    var n := MatchAt(s, i);
    MatchIsRun(s, i);
    KeywordRun(s, i);
    hide MaximalWord, MatchAt, StartsKeyword, IsKeyword;
    MaximalWordsUnmoved(q, i, i + n);
  }

  /** The run of a keyword is a maximal word. */
  lemma KeywordRun(s: string, i: nat)
    requires i <= |s| && StartsKeyword(WordAt(s, i - 1), s[i..])
    ensures var n := RunLength(s[i..]); MaximalWord(s, i, i + n) && IsKeyword(s[i..i + n])
  {
    var t := s[i..];
    var n := RunLength(t);
    KeywordNotEmpty();
    assert t[..n] == s[i..i + n];
    hide IsKeyword, IsWord;
    assert forall k :: i <= k < i + n ==> s[k] == t[k - i];
    assert WordAt(t, n) == WordAt(s, i + n);
  }

  lemma NotAtKeyword(q: string, i: nat)
    requires i < |q| && Outside(WithoutSpecials(q), i) && MatchAt(WithoutSpecials(q), i) == 0
    ensures !InKeyword(q, i) && Outside(WithoutSpecials(q), i + 1)
  {
    var s := WithoutSpecials(q);
    MatchIsMaximalKeyword(s, i);
    hide IsKeyword, MatchAt, StartsKeyword;
    if InKeyword(q, i) {
      var a, b :| a <= i < b && MaximalWord(q, a, b) && IsKeyword(q[a..b]);
      MaximalWordsUnmoved(q, a, b);
      if a == i { KeywordStartsHere(s, i, b); }
      assert false;
    }
    forall a, b | a < i + 1 < b && MaximalWord(s, a, b) ensures !IsKeyword(s[a..b]) {
      MaximalWordsUnmoved(q, a, b);
    }
  }

  lemma {:induction false} ReplacementKeepsSurvivors(q: string, i: nat)
    requires i <= |q| && Outside(WithoutSpecials(q), i)
    ensures NonSpaces(WithoutKeywords(WithoutSpecials(q), i)) == Survivors(q, i)
    decreases |q| - i
  {
    hide Outside, InKeyword, MatchAt, IsKeyword, MaximalWord;
    var s := WithoutSpecials(q);
    if i == |q| {
    } else {
      var n := MatchAt(s, i);
      if n > 0 {
        AtKeyword(q, i);
        SkipKeyword(q, i, i + n, i);
        ReplacementKeepsSurvivors(q, i + n);
        NonSpacesConcat(" ", WithoutKeywords(s, i + n));
      } else {
        NotAtKeyword(q, i);
        ReplacementKeepsSurvivors(q, i + 1);
        assert (IsSpecial(q[i]) ==> s[i] == ' ') && (!IsSpecial(q[i]) ==> s[i] == q[i]);
        NonSpacesConcat([s[i]], WithoutKeywords(s, i + 1));
      }
    }
  }

  lemma KeywordStartsHere(s: string, i: nat, b: nat)
    requires MaximalWord(s, i, b) && IsKeyword(s[i..b])
    ensures StartsKeyword(WordAt(s, i - 1), s[i..])
  {
    assert s[i..][..b - i] == s[i..b];
    assert WordAt(s[i..], b - i) == WordAt(s, b);
    RunLengthAt(s[i..], b - i);
  }

  lemma {:induction false} SkipKeyword(q: string, a: nat, b: nat, i: nat)
    requires MaximalWord(q, a, b) && IsKeyword(q[a..b]) && a <= i <= b
    ensures Survivors(q, i) == Survivors(q, b)
    ensures Outside(WithoutSpecials(q), b)
    decreases b - i
  {
    if i < b {
      assert InKeyword(q, i);
      SkipKeyword(q, a, b, i + 1);
    } else {
      forall c, d | c < b < d && MaximalWord(WithoutSpecials(q), c, d) ensures false {
        MaximalWordsUnmoved(q, c, d);
      }
    }
  }

  /**
    Nothing else is lost and nothing is added: the result's characters other than spaces are, in order, the
    input's characters that are neither white space nor special nor part of a keyword; and the query is
    refused exactly when there are none.
   */
  lemma SanitizeKeepsTheRest(q: string)
    ensures Sanitize(q).Query? <==> Survivors(q, 0) != ""
    ensures Sanitize(q).Query? ==> NonSpaces(Sanitize(q).text) == Survivors(q, 0)
  {
    SanitizedText(q);
    var s := WithoutSpecials(q);
    assert s[0..] == s;
    ReplacementFromLeft(s, 0);
    SqueezeKeepsNonSpaces(Replaced(false, s));
    ReplacementKeepsSurvivors(q, 0);
    if Squeezed(q) != "" {
      FieldsAreFields(Replaced(false, s));
      JoinIsSingleSpaced(Fields(Replaced(false, s)));
      assert !IsSpace(Squeezed(q)[0]);
    }
  }

  lemma {:induction false} SurvivorSurvives(q: string, i: nat, k: nat)
    requires i <= k && Survives(q, k)
    ensures Survivors(q, i) != ""
    decreases k - i
  {
    if i == k {
    } else {
      SurvivorSurvives(q, i + 1, k);
    }
  }

  /** A query with a character that is no white space, no special and no word character is never refused. */
  lemma MarkIsEnough(q: string, k: nat)
    requires k < |q| && !IsSpace(q[k]) && !IsSpecial(q[k]) && !IsWord(q[k])
    ensures Sanitize(q).Query?
  {
    assert Survives(q, k);
    SurvivorSurvives(q, 0, k);
    SanitizeKeepsTheRest(q);
  }

  // ---------- the same, character by character ----------

  lemma SpecialExactly(c: char)
    ensures IsSpecial(c) <==> c in ['"', '^', '*', '(', ')', '{', '}', '[', ']', '\\', ':', ';', ',']
  {
  }

  lemma WordExactly(c: char)
    ensures IsWord(c) <==> 48 <= c as int <= 57 || 65 <= c as int <= 90 || c as int == 95 || 97 <= c as int <= 122
  {
  }

  /** The keywords, in upper case, in lower case and in any mixture. */
  lemma KeywordExactly(s: string)
    ensures IsKeyword(s) <==>
              || (|s| == 2 && s[0] in "oO" && s[1] in "rR")
              || (|s| == 3 && s[0] in "aA" && s[1] in "nN" && s[2] in "dD")
              || (|s| == 3 && s[0] in "nN" && s[1] in "oO" && s[2] in "tT")
  {
    var f := Folded(s);
    assert |f| == |s| && forall i :: 0 <= i < |s| ==> f[i] == Fold(s[i]);
    hide Folded;
    if |s| == 2 {
      assert f == [f[0], f[1]];
    } else if |s| == 3 {
      assert f == [f[0], f[1], f[2]];
    }
  }

  lemma {:induction false} TrimLeftCuts(s: string) returns (i: nat)
    ensures i <= |s| && TrimLeft(s) == s[i..] && forall k :: 0 <= k < i ==> IsSpace(s[k])
    decreases |s|
  {
    if s == "" || !IsSpace(s[0]) {
      i := 0;
    } else {
      i := TrimLeftCuts(s[1..]);
      i := i + 1;
    }
  }

  lemma {:induction false} TrimRightCuts(s: string) returns (j: nat)
    ensures j <= |s| && TrimRight(s) == s[..j] && forall k :: j <= k < |s| ==> IsSpace(s[k])
    decreases |s|
  {
    if s == "" || !IsSpace(s[|s| - 1]) {
      j := |s|;
    } else {
      j := TrimRightCuts(s[..|s| - 1]);
    }
  }

  /** Trimming cuts off white space at both ends, and all of it. */
  lemma TrimExactly(s: string) returns (i: nat, j: nat)
    ensures i <= j <= |s| && TrimSpace(s) == s[i..j]
    ensures forall k :: 0 <= k < i || j <= k < |s| ==> IsSpace(s[k])
    ensures i < j ==> !IsSpace(s[i]) && !IsSpace(s[j - 1])
  {
    TrimLeftShape(s);
    TrimRightShape(TrimLeft(s));
    i := TrimLeftCuts(s);
    var n := TrimRightCuts(s[i..]);
    j := i + n;
    hide IsSpace, TrimLeft, TrimRight;
    assert s[i..][..n] == s[i..j];
    assert forall k :: j <= k < |s| ==> s[k] == s[i..][k - i];
  }

  /** The surviving characters from position i on; where something in between is gone, a single space is left. */
  ghost function Spaced(q: string, i: nat, gap: bool, started: bool): string
    decreases |q| - i
  {
    if i >= |q| then ""
    else if Survives(q, i) then (if gap && started then " " else "") + [q[i]] + Spaced(q, i + 1, false, true)
    else Spaced(q, i + 1, true, started)
  }

  /** White space squeezed to single spaces, read from the left. */
  function Squeeze(s: string, gap: bool, started: bool): string {
    if s == "" then ""
    else if IsSpace(s[0]) then Squeeze(s[1..], true, started)
    else (if gap && started then " " else "") + [s[0]] + Squeeze(s[1..], false, true)
  }

  lemma FirstField(c: char, t: string)
    requires !IsSpace(c)
    ensures t == "" || IsSpace(t[0]) ==> Fields([c] + t) == [[c]] + Fields(t)
    ensures t != "" && !IsSpace(t[0]) ==>
              Fields(t) != [] && Fields([c] + t) == [[c] + Fields(t)[0]] + Fields(t)[1..]
  {
    var s := [c] + t;
    var n := FieldLength(t);
    assert s[1..] == t;
    assert FieldLength(s) == 1 + n;
    FieldsUnfold(s);
    FieldsUnfold(t);
    hide Fields, FieldLength;
    assert s[..1 + n] == [c] + t[..n] && s[1 + n..] == t[n..];
    if t == "" || IsSpace(t[0]) {
      assert n == 0 && t[n..] == t && t[..n] == "";
    } else {
      assert Fields(t)[0] == t[..n] && Fields(t)[1..] == Fields(t[n..]);
    }
  }

  lemma FieldsUnfold(s: string)
    ensures s != "" && !IsSpace(s[0]) ==> Fields(s) == [s[..FieldLength(s)]] + Fields(s[FieldLength(s)..])
  {
  }

  /** What one more character in front does to the joined fields. */
  lemma JoinFront(c: char, t: string)
    requires !IsSpace(c)
    ensures var j := Join(Fields(t));
      Join(Fields([c] + t)) == [c] + if j != "" && IsSpace(t[0]) then " " + j else j
  {
    FirstField(c, t);
    FieldsAreFields(t);
    var fs := Fields(t);
    hide Fields, IsSpace;
    assert fs != [] ==> IsField(fs[0]);
    if t == "" || IsSpace(t[0]) {
      assert ([[c]] + fs)[1..] == fs;
    } else {
      assert ([[c] + fs[0]] + fs[1..])[1..] == fs[1..];
    }
  }

  lemma SqueezeUnfolds(s: string, gap: bool, started: bool)
    ensures s == "" ==> Squeeze(s, gap, started) == Join(Fields(s)) == ""
    ensures s != "" && IsSpace(s[0]) ==>
              Squeeze(s, gap, started) == Squeeze(s[1..], true, started) && Fields(s) == Fields(s[1..])
    ensures s != "" && !IsSpace(s[0]) ==>
              Squeeze(s, gap, started) == (if gap && started then " " else "") + ([s[0]] + Squeeze(s[1..], false, true))
  {
  }

  lemma {:induction false} SqueezeIsJoin(s: string, gap: bool, started: bool)
    ensures var j := Join(Fields(s));
      Squeeze(s, gap, started) == if j != "" && started && (gap || IsSpace(s[0])) then " " + j else j
    decreases |s|
  {
    hide Join, Fields, IsSpace, Squeeze;
    SqueezeUnfolds(s, gap, started);
    if s == "" {
    } else if IsSpace(s[0]) {
      SqueezeIsJoin(s[1..], true, started);
    } else {
      assert s == [s[0]] + s[1..];
      JoinFront(s[0], s[1..]);
      SqueezeIsJoin(s[1..], false, true);
    }
  }

  lemma SpacedSkips(q: string, i: nat, gap: bool, started: bool)
    requires i < |q| && InKeyword(q, i)
    ensures Spaced(q, i, gap, started) == Spaced(q, i + 1, true, started)
  {
    hide InKeyword;
  }

  lemma {:induction false} SpacedSkipsKeyword(q: string, b: nat, i: nat, gap: bool, started: bool)
    requires i < b <= |q| && forall k :: i <= k < b ==> InKeyword(q, k)
    ensures Spaced(q, i, gap, started) == Spaced(q, b, true, started)
    decreases b - i
  {
    hide InKeyword, Spaced;
    SpacedSkips(q, i, gap, started);
    if i + 1 == b {
    } else {
      SpacedSkipsKeyword(q, b, i + 1, true, started);
    }
  }

  lemma WithinKeyword(q: string, a: nat, b: nat)
    requires MaximalWord(q, a, b) && IsKeyword(q[a..b])
    ensures a < b <= |q| && forall k :: a <= k < b ==> InKeyword(q, k)
  {
  }

  lemma {:induction false} ReplacementIsSpaced(q: string, i: nat, gap: bool, started: bool)
    requires i <= |q| && Outside(WithoutSpecials(q), i)
    ensures Squeeze(WithoutKeywords(WithoutSpecials(q), i), gap, started) == Spaced(q, i, gap, started)
    decreases |q| - i
  {
    hide Outside, InKeyword, MatchAt, IsKeyword, MaximalWord;
    var s := WithoutSpecials(q);
    if i == |q| {
    } else {
      var n := MatchAt(s, i);
      if n > 0 {
        AtKeyword(q, i);
        SkipKeyword(q, i, i + n, i);
        WithinKeyword(q, i, i + n);
        SpacedSkipsKeyword(q, i + n, i, gap, started);
        ReplacementIsSpaced(q, i + n, true, started);
        assert (" " + WithoutKeywords(s, i + n))[1..] == WithoutKeywords(s, i + n);
      } else {
        NotAtKeyword(q, i);
        var t := WithoutKeywords(s, i + 1);
        assert ([s[i]] + t)[1..] == t;
        ReplacementIsSpaced(q, i + 1, !Survives(q, i), started || Survives(q, i));
        assert (IsSpecial(q[i]) ==> s[i] == ' ') && (!IsSpecial(q[i]) ==> s[i] == q[i]);
      }
    }
  }

  /**
    Sanitizing, exactly: a blank query is empty, one of which nothing survives has only operators, and any other becomes
    its surviving characters, in order, with a single space wherever something between two of them is gone.
   */
  lemma SanitizeExactly(q: string)
    ensures Sanitize(q)
         == if forall i :: 0 <= i < |q| ==> IsSpace(q[i]) then Empty
            else if Spaced(q, 0, false, false) == "" then OnlyOperators
            else Query(Spaced(q, 0, false, false))
  {
    SanitizedText(q);
    var s := WithoutSpecials(q);
    assert s[0..] == s;
    ReplacementFromLeft(s, 0);
    SqueezeIsJoin(Replaced(false, s), false, false);
    ReplacementIsSpaced(q, 0, false, false);
    var i, j := TrimExactly(q);
  }
}
