/** tokenize and unique: the words of a text, once each, in order of first appearance. */
module Tokenizer {
  import opened Text

  predicate IsAlnum(c: char) {
    'a' <= c <= 'z' || '0' <= c <= '9'
  }

  /** Each non-empty string of ts at its first appearance. */
  function Unique(ts: seq<string>): seq<string> {
    if ts == [] then []
    else
      var (u, t) := (Unique(ts[..|ts| - 1]), ts[|ts| - 1]);
      if t == "" || t in u then u else u + [t]
  }

  function Tokens(text: string): seq<string> {
    Unique(Runs(IsAlnum, ToLower(text)))
  }

  /** The tokens column of the index. */
  function TokenColumn(text: string): string {
    Join(Tokens(text), " ")
  }

  ghost predicate NoDuplicates<T>(s: seq<T>) {
    forall i, j | 0 <= i < j < |s| :: s[i] != s[j]
  }

  ghost function Elements<T>(s: seq<T>): set<T> {
    set x | x in s
  }

  lemma {:induction false} SizeOfDistinct<T>(s: seq<T>)
    requires NoDuplicates(s)
    ensures |Elements(s)| == |s|
  {
    if s != [] {
      var front, last := s[..|s| - 1], s[|s| - 1];
      SizeOfDistinct(front);
      assert last !in front && Elements(s) == Elements(front) + {last};
    }
  }

  /* ---------- The loops ---------- */

  method UniqueTokens(tokens: seq<string>) returns (out: seq<string>)
    ensures out == Unique(tokens)
  {
    var seen: set<string> := {};
    out := [];
    for i := 0 to |tokens|
      invariant out == Unique(tokens[..i])
      invariant seen == Elements(out)
    {
      var token := tokens[i];
      assert tokens[..i + 1][..i] == tokens[..i];
      if token == "" || token in seen {
        continue;
      }
      seen := seen + {token};
      out := out + [token];
    }
    assert tokens[..|tokens|] == tokens;
  }

  method Tokenize(text: string) returns (tokens: seq<string>)
    ensures tokens == Tokens(text)
  {
    var lowered := ToLower(text);
    var current := "";
    tokens := [];
    for i := 0 to |lowered|
      invariant (tokens, current) == Pass(IsAlnum, lowered[..i])
    {
      var r := lowered[i];
      assert lowered[..i + 1][..i] == lowered[..i];
      if IsAlnum(r) {
        current := current + [r];
        continue;
      }
      if current != "" {
        tokens := tokens + [current];
        current := "";
      }
    }
    assert lowered[..|lowered|] == lowered;
    if current != "" {
      tokens := tokens + [current];
    }
    tokens := UniqueTokens(tokens);
  }

  /* ---------- What Unique keeps ---------- */

  /** Unique loses no word and keeps no duplicate. */
  lemma {:induction false} UniqueKeepsEachWordOnce(ts: seq<string>)
    ensures NoDuplicates(Unique(ts)) && "" !in Unique(ts)
    ensures Elements(Unique(ts)) == Elements(ts) - {""}
  {
    if ts != [] {
      var n := |ts| - 1;
      UniqueKeepsEachWordOnce(ts[..n]);
      assert ts == ts[..n] + [ts[n]];
      forall t ensures t in Elements(Unique(ts)) <==> t in Elements(ts) && t != "" {
        assert t in Elements(Unique(ts[..n])) <==> t in ts[..n] && t != "";
      }
    }
  }

  /** i is where w first appears in ts. */
  ghost predicate FirstAt(ts: seq<string>, w: string, i: nat) {
    i < |ts| && ts[i] == w && w !in ts[..i]
  }

  /** Words come out in the order in which they first appear. */
  lemma {:induction false} UniqueKeepsFirstAppearanceOrder(ts: seq<string>, a: nat, b: nat, i: nat, j: nat)
    requires a < b < |Unique(ts)|
    requires FirstAt(ts, Unique(ts)[a], i) && FirstAt(ts, Unique(ts)[b], j)
    ensures i < j
  {
    var n := |ts| - 1;
    var front, u := ts[..n], Unique(ts[..n]);
    UniqueKeepsEachWordOnce(front);
    assert Unique(ts)[a] in Elements(u);
    assert i < n by { assert Unique(ts)[a] in front; }
    assert front[..i] == ts[..i];
    if b < |u| {
      assert Unique(ts)[b] in Elements(u);
      assert j < n by { assert Unique(ts)[b] in front; }
      assert front[..j] == ts[..j];
      UniqueKeepsFirstAppearanceOrder(front, a, b, i, j);
    } else {
      assert ts[n] !in Elements(u);
      assert ts[n] !in Elements(front);
      assert forall k | 0 <= k < n :: ts[k] == front[k];
      assert j == n;
    }
  }

  lemma {:induction false} UniqueOfDistinct(ts: seq<string>)
    requires NoDuplicates(ts) && "" !in ts
    ensures Unique(ts) == ts
  {
    if ts != [] {
      UniqueOfDistinct(ts[..|ts| - 1]);
    }
  }

  lemma UniqueOneMore(ts: seq<string>, x: string)
    ensures Unique(ts + [x]) == if x == "" || x in ts then Unique(ts) else Unique(ts) + [x]
  {
    assert (ts + [x])[..|ts|] == ts;
    UniqueKeepsEachWordOnce(ts);
    assert x in Elements(Unique(ts)) <==> x in Elements(ts) && x != "";
  }

  /** Duplicates may be dropped from the parts before they are dropped from the whole. */
  lemma {:induction false} UniqueOfParts(a: seq<string>, b: seq<string>)
    ensures Unique(a + b) == Unique(Unique(a) + Unique(b))
  {
    UniqueKeepsEachWordOnce(a);
    if b == [] {
      assert a + b == a && Unique(a) + Unique(b) == Unique(a);
      UniqueOfDistinct(Unique(a));
    } else {
      var n := |b| - 1;
      var front, x := b[..n], b[n];
      UniqueOfParts(a, front);
      assert b == front + [x] && a + b == a + front + [x];
      UniqueOneMore(a + front, x);
      UniqueOneMore(front, x);
      UniqueKeepsEachWordOnce(front);
      assert x in Elements(Unique(a)) <==> x in Elements(a) && x != "";
      assert x in Elements(Unique(front)) <==> x in Elements(front) && x != "";
      if x != "" && x !in front {
        assert Unique(a) + Unique(b) == Unique(a) + Unique(front) + [x];
        UniqueOneMore(Unique(a) + Unique(front), x);
      }
    }
  }

  /* ---------- What Tokens means ---------- */

  /** A token is a non-empty word over [a-z0-9], and no token is listed twice. */
  lemma TokensAreDistinctWords(text: string)
    ensures NoDuplicates(Tokens(text))
    ensures forall t | t in Tokens(text) :: t != "" && All(IsAlnum, t)
  {
    var words := Runs(IsAlnum, ToLower(text));
    RunsAreWords(IsAlnum, ToLower(text));
    UniqueKeepsEachWordOnce(words);
    forall t | t in Tokens(text) ensures t != "" && All(IsAlnum, t) {
      assert t in Elements(Unique(words));
    }
  }

  /** The tokens are exactly the maximal [a-z0-9] runs of the lowered text. */
  lemma TokensAreTheMaximalRuns(text: string, w: string)
    ensures w in Tokens(text) <==>
            exists lo: nat, hi: nat :: IsMaximalRun(IsAlnum, ToLower(text), lo, hi) && w == ToLower(text)[lo..hi]
  {
    hide ToLower, Runs, Unique, RunBounds;
    var lowered := ToLower(text);
    var words := Runs(IsAlnum, lowered);
    RunsAreTheMaximalRuns(IsAlnum, lowered);
    UniqueKeepsEachWordOnce(words);
    assert w in Elements(Unique(words)) <==> w in words && w != "";
    if w in Tokens(text) {
      var k :| 0 <= k < |words| && words[k] == w;
      var (lo, hi) := RunBounds(IsAlnum, lowered)[k];
      assert IsMaximalRun(IsAlnum, lowered, lo, hi);
    }
    if lo: nat, hi: nat :| IsMaximalRun(IsAlnum, lowered, lo, hi) && w == lowered[lo..hi] {
      var k :| 0 <= k < |words| && RunBounds(IsAlnum, lowered)[k] == (lo, hi);
      assert words[k] == w;
    }
  }

  /** Capitals make no difference to the tokens. */
  lemma TokensIgnoreCapitals(s: string, t: string)
    requires PartlyLowered(s, t)
    ensures Tokens(s) == Tokens(t)
  {
    LoweringIgnoresCapitals(s, t);
  }

  /** s[lo..hi] is a stretch of small letters and digits that cannot be extended on either side. */
  ghost predicate IsWordAt(s: string, lo: nat, hi: nat) {
    && lo < hi <= |s|
    && (forall k | lo <= k < hi :: 'a' <= s[k] <= 'z' || '0' <= s[k] <= '9')
    && (lo > 0 ==> !('a' <= s[lo - 1] <= 'z' || '0' <= s[lo - 1] <= '9'))
    && (hi < |s| ==> !('a' <= s[hi] <= 'z' || '0' <= s[hi] <= '9'))
  }

  /** A word is a token of an ASCII text exactly when it stands in the text with its capitals made small. */
  lemma TokensOfAscii(s: string, t: string, w: string)
    requires IsAscii(s) && PartlyLowered(s, t) && HasNoCapital(t)
    ensures w in Tokens(s) <==> exists lo: nat, hi: nat :: IsWordAt(t, lo, hi) && w == t[lo..hi]
  {
    LoweredAscii(s, t);
    TokensAreTheMaximalRuns(s, w);
    forall lo: nat, hi: nat ensures IsWordAt(t, lo, hi) <==> IsMaximalRun(IsAlnum, t, lo, hi) {}
  }

  /** Tokenizing distributes over any separator that holds no letter or digit once lowered. */
  lemma TokensOfConcatenation(a: string, sep: string, b: string)
    requires sep != "" && None(IsAlnum, ToLower(sep))
    ensures Tokens(a + sep + b) == Unique(Tokens(a) + Tokens(b))
  {
    assert ToLower(a + sep + b) == ToLower(a) + ToLower(sep) + ToLower(b);
    RunsOfConcatenation(IsAlnum, ToLower(a), ToLower(sep), ToLower(b));
    UniqueOfParts(Runs(IsAlnum, ToLower(a)), Runs(IsAlnum, ToLower(b)));
  }

  /** Reading back the stored column gives the tokens, and so does tokenizing it again. */
  lemma ColumnRoundTrip(text: string)
    ensures Fields(TokenColumn(text)) == Tokens(text)
    ensures Tokens(TokenColumn(text)) == Tokens(text)
  {
    var tokens, column := Tokens(text), TokenColumn(text);
    TokensAreDistinctWords(text);
    forall t | t in tokens ensures All(NotSpace, t) {
      assert All(IsAlnum, t);
    }
    RunsOfJoin(NotSpace, tokens, " ");
    RunsOfJoin(IsAlnum, tokens, " ");
    var plain := c => c == ' ' || IsAlnum(c);
    forall t | t in tokens ensures All(plain, t) {
      assert All(IsAlnum, t);
    }
    JoinedCharacters(tokens, " ", plain);
    assert ToLower(column) == column;
    UniqueOfDistinct(tokens);
  }
}
