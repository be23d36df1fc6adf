/** The string operations of Go's standard library that the program relies on. */
module Text {

  /** The lower-case table for characters outside ASCII, white space excepted. Nothing is assumed about it. */
  const unicodeLower: char -> char

  predicate IsSpace(c: char) {
    || '\t' <= c <= '\r'
    || c in {' ', '\U{85}', '\U{A0}', '\U{1680}', '\U{2028}', '\U{2029}', '\U{202F}', '\U{205F}', '\U{3000}'}
    || '\U{2000}' <= c <= '\U{200A}'
  }

  predicate NotSpace(c: char) {
    !IsSpace(c)
  }

  function LowerRune(c: char): char {
    if 'A' <= c <= 'Z' then ((c as int) + 32) as char
    else if c < '\U{80}' || IsSpace(c) then c
    else unicodeLower(c)
  }

  function ToLower(s: string): string {
    seq(|s|, i requires 0 <= i < |s| => LowerRune(s[i]))
  }

  /** b is a, or what is left of it when the capital letter a is made small. */
  predicate LowersTo(a: char, b: char) {
    a == b || ('a' <= b <= 'z' && a as int + 32 == b as int)
  }

  /** t is s with some of the ASCII capitals made small. */
  predicate PartlyLowered(s: string, t: string) {
    |s| == |t| && forall i | 0 <= i < |s| :: LowersTo(s[i], t[i])
  }

  predicate IsAscii(s: string) {
    forall i | 0 <= i < |s| :: s[i] < '\U{80}'
  }

  predicate HasNoCapital(s: string) {
    forall i | 0 <= i < |s| :: !('A' <= s[i] <= 'Z')
  }

  /** Lowering takes no notice of ASCII capitals. */
  lemma LoweringIgnoresCapitals(s: string, t: string)
    requires PartlyLowered(s, t)
    ensures ToLower(s) == ToLower(t)
  {
    forall i | 0 <= i < |s| ensures ToLower(s)[i] == ToLower(t)[i] {
      assert LowersTo(s[i], t[i]);
    }
  }

  /** An ASCII text is lowered to the one text without capitals that it can be turned into by making capitals small. */
  lemma LoweredAscii(s: string, t: string)
    requires IsAscii(s)
    ensures t == ToLower(s) <==> PartlyLowered(s, t) && HasNoCapital(t)
  {
    if PartlyLowered(s, t) && HasNoCapital(t) {
      LoweringIgnoresCapitals(s, t);
      forall i | 0 <= i < |t| ensures ToLower(t)[i] == t[i] {
        assert LowersTo(s[i], t[i]);
      }
    }
  }

  ghost predicate All(p: char -> bool, s: string) {
    forall k | 0 <= k < |s| :: p(s[k])
  }

  ghost predicate None(p: char -> bool, s: string) {
    forall k | 0 <= k < |s| :: !p(s[k])
  }

  /* ---------- Trimming ---------- */

  function TrimLeft(p: char -> bool, s: string): (r: string)
    ensures |r| <= |s|
  {
    if s != "" && p(s[0]) then TrimLeft(p, s[1..]) else s
  }

  function TrimRight(p: char -> bool, s: string): (r: string)
    ensures |r| <= |s|
  {
    if s != "" && p(s[|s| - 1]) then TrimRight(p, s[..|s| - 1]) else s
  }

  function Trim(p: char -> bool, s: string): string {
    TrimRight(p, TrimLeft(p, s))
  }

  function TrimSpace(s: string): string {
    Trim(IsSpace, s)
  }

  /** The test `strings.TrimSpace(s) == ""`; see BlankIsTrimmedToNothing. */
  predicate Blank(s: string) {
    forall c | c in s :: IsSpace(c)
  }

  lemma {:induction false} TrimLeftDrops(p: char -> bool, s: string) returns (n: nat)
    ensures n <= |s| && TrimLeft(p, s) == s[n..] && forall k | 0 <= k < n :: p(s[k])
    ensures n < |s| ==> !p(s[n])
  {
    if s != "" && p(s[0]) {
      var m := TrimLeftDrops(p, s[1..]);
      n := m + 1;
      forall k | 0 <= k < n ensures p(s[k]) {
        if k > 0 { assert p(s[1..][k - 1]); }
      }
    } else {
      n := 0;
    }
  }

  lemma {:induction false} TrimRightDrops(p: char -> bool, s: string) returns (n: nat)
    ensures n <= |s| && TrimRight(p, s) == s[..n] && forall k | n <= k < |s| :: p(s[k])
    ensures n > 0 ==> !p(s[n - 1])
  {
    if s != "" && p(s[|s| - 1]) {
      var t := s[..|s| - 1];
      n := TrimRightDrops(p, t);
      forall k | n <= k < |s| ensures p(s[k]) {
        if k < |t| { assert p(t[k]); }
      }
    } else {
      n := |s|;
    }
  }

  /** Trim(p, s) is the stretch of s left when the p-characters at both ends are removed. */
  lemma TrimIsMiddle(p: char -> bool, s: string) returns (lo: nat, hi: nat)
    ensures lo <= hi <= |s| && Trim(p, s) == s[lo..hi]
    ensures forall k | 0 <= k < lo || hi <= k < |s| :: p(s[k])
    ensures lo < hi ==> !p(s[lo]) && !p(s[hi - 1])
  {
    lo := TrimLeftDrops(p, s);
    var t := s[lo..];
    var n := TrimRightDrops(p, t);
    hi := lo + n;
    forall k | hi <= k < |s| ensures p(s[k]) {
      assert p(t[k - lo]);
    }
  }

  /** Space, tab, line feed, vertical tab, form feed, carriage return. */
  predicate IsAsciiSpace(c: char) {
    c as int in {32, 9, 10, 11, 12, 13}
  }

  /** In ASCII text, exactly these are trimmed. */
  lemma AsciiTrim(s: string) returns (lo: nat, hi: nat)
    requires IsAscii(s)
    ensures lo <= hi <= |s| && TrimSpace(s) == s[lo..hi]
    ensures forall k | 0 <= k < lo || hi <= k < |s| :: IsAsciiSpace(s[k])
    ensures lo < hi ==> !IsAsciiSpace(s[lo]) && !IsAsciiSpace(s[hi - 1])
  {
    lo, hi := TrimIsMiddle(IsSpace, s);
  }

  /** Trimming leaves nothing at either end to trim. */
  lemma TrimIdempotent(p: char -> bool, s: string)
    ensures Trim(p, Trim(p, s)) == Trim(p, s)
  {
    var lo, hi := TrimIsMiddle(p, s);
  }

  lemma TrimSpaceIdempotent(s: string)
    ensures TrimSpace(TrimSpace(s)) == TrimSpace(s)
  {
    TrimIdempotent(IsSpace, s);
  }

  lemma BlankIsTrimmedToNothing(s: string)
    ensures Blank(s) <==> TrimSpace(s) == ""
  {
    var lo, hi := TrimIsMiddle(IsSpace, s);
    if lo == hi {
      forall c | c in s ensures IsSpace(c) {
        var k :| 0 <= k < |s| && s[k] == c;
        assert IsSpace(s[k]);
      }
    } else {
      assert s[lo] in s;
    }
  }

  /* ---------- Splitting into runs ---------- */

  function Flush(done: seq<string>, open: string): seq<string> {
    if open == "" then done else done + [open]
  }

  /** A left-to-right pass over s: the runs of p-characters that have ended, and the one still open. */
  function Pass(p: char -> bool, s: string): (seq<string>, string) {
    if s == "" then ([], "")
    else
      var (done, open) := Pass(p, s[..|s| - 1]);
      if p(s[|s| - 1]) then (done, open + [s[|s| - 1]]) else (Flush(done, open), "")
  }

  function Runs(p: char -> bool, s: string): seq<string> {
    var (done, open) := Pass(p, s);
    Flush(done, open)
  }

  /** strings.Fields. */
  function Fields(s: string): seq<string> {
    Runs(NotSpace, s)
  }

  function Join(parts: seq<string>, sep: string): string {
    if parts == [] then ""
    else if |parts| == 1 then parts[0]
    else Join(parts[..|parts| - 1], sep) + sep + parts[|parts| - 1]
  }

  /** s[lo..hi] is a stretch of p-characters that cannot be extended on either side. */
  ghost predicate IsMaximalRun(p: char -> bool, s: string, lo: nat, hi: nat) {
    && lo < hi <= |s|
    && (forall k | lo <= k < hi :: p(s[k]))
    && (lo == 0 || !p(s[lo - 1]))
    && (hi == |s| || !p(s[hi]))
  }

  /** The bounds of the runs of s that have ended, and where the run still open begins. */
  ghost function Bounds(p: char -> bool, s: string): (r: (seq<(nat, nat)>, nat))
    ensures r.1 <= |s|
  {
    if s == "" then ([], 0)
    else
      var n := |s| - 1;
      var (ended, lo) := Bounds(p, s[..n]);
      if p(s[n]) then (ended, lo)
      else (if lo < n then ended + [(lo, n)] else ended, |s|)
  }

  /** The bounds of all runs of s. */
  ghost function RunBounds(p: char -> bool, s: string): seq<(nat, nat)> {
    var (ended, lo) := Bounds(p, s);
    if lo < |s| then ended + [(lo, |s|)] else ended
  }

  lemma {:induction false} OpenRunBegins(p: char -> bool, s: string)
    ensures var lo := Bounds(p, s).1;
            (lo == 0 || !p(s[lo - 1])) && forall k | lo <= k < |s| :: p(s[k])
  {
    if s != "" { OpenRunBegins(p, s[..|s| - 1]); }
  }

  lemma {:induction false} EndedRunsAreMaximal(p: char -> bool, s: string)
    ensures var (ended, lo) := Bounds(p, s);
            && (forall b | b in ended :: b.1 < lo && IsMaximalRun(p, s, b.0, b.1))
            && (forall i, j | 0 <= i < j < |ended| :: ended[i].1 < ended[j].0)
  {
    if s != "" {
      var n := |s| - 1;
      EndedRunsAreMaximal(p, s[..n]);
      OpenRunBegins(p, s[..n]);
      var (ended, lo) := Bounds(p, s[..n]);
      forall b | b in ended ensures IsMaximalRun(p, s, b.0, b.1) {
        assert IsMaximalRun(p, s[..n], b.0, b.1);
      }
    }
  }

  lemma {:induction false} MaximalRunsHaveEnded(p: char -> bool, s: string, lo: nat, hi: nat)
    requires IsMaximalRun(p, s, lo, hi) && hi < |s|
    ensures (lo, hi) in Bounds(p, s).0
  {
    var n := |s| - 1;
    OpenRunBegins(p, s[..n]);
    if hi < n {
      assert IsMaximalRun(p, s[..n], lo, hi);
      MaximalRunsHaveEnded(p, s[..n], lo, hi);
    } else {
      var open := Bounds(p, s[..n]).1;
      assert open <= lo;
      assert lo <= open;
    }
  }

  lemma {:induction false} PassCutsAtBounds(p: char -> bool, s: string)
    ensures var (done, open) := Pass(p, s); var (ended, lo) := Bounds(p, s);
            && open == s[lo..]
            && |done| == |ended|
            && forall k | 0 <= k < |done| :: ended[k].0 <= ended[k].1 <= |s| && done[k] == s[ended[k].0..ended[k].1]
  {
    if s != "" {
      var t := s[..|s| - 1];
      PassCutsAtBounds(p, t);
      var (done, open) := Pass(p, t);
      var (ended, lo) := Bounds(p, t);
      forall k | 0 <= k < |done| ensures done[k] == s[ended[k].0..ended[k].1] {
        assert done[k] == t[ended[k].0..ended[k].1];
      }
      assert t[lo..] == s[lo..|t|];
    }
  }

  lemma RunBoundsAreComplete(p: char -> bool, s: string, lo: nat, hi: nat)
    requires IsMaximalRun(p, s, lo, hi)
    ensures (lo, hi) in RunBounds(p, s)
  {
    if hi < |s| {
      MaximalRunsHaveEnded(p, s, lo, hi);
    } else {
      OpenRunBegins(p, s);
      var open := Bounds(p, s).1;
      assert open <= lo;
      assert lo <= open;
    }
  }

  lemma RunsAreCutAtBounds(p: char -> bool, s: string)
    ensures |Runs(p, s)| == |RunBounds(p, s)|
    ensures forall k | 0 <= k < |Runs(p, s)| ::
              var (lo, hi) := RunBounds(p, s)[k]; lo <= hi <= |s| && Runs(p, s)[k] == s[lo..hi]
  {
    hide Pass, Bounds;
    PassCutsAtBounds(p, s);
  }

  lemma RunBoundsAreMaximal(p: char -> bool, s: string)
    ensures forall k | 0 <= k < |RunBounds(p, s)| :: IsMaximalRun(p, s, RunBounds(p, s)[k].0, RunBounds(p, s)[k].1)
    ensures forall i, j | 0 <= i < j < |RunBounds(p, s)| :: RunBounds(p, s)[i].1 < RunBounds(p, s)[j].0
  {
    hide Pass, Bounds;
    OpenRunBegins(p, s);
    EndedRunsAreMaximal(p, s);
  }

  /** Runs(p, s) lists exactly the maximal runs of s, left to right. */
  lemma RunsAreTheMaximalRuns(p: char -> bool, s: string)
    ensures |Runs(p, s)| == |RunBounds(p, s)|
    ensures forall k | 0 <= k < |Runs(p, s)| ::
              var (lo, hi) := RunBounds(p, s)[k];
              IsMaximalRun(p, s, lo, hi) && Runs(p, s)[k] == s[lo..hi]
    ensures forall i, j | 0 <= i < j < |RunBounds(p, s)| :: RunBounds(p, s)[i].1 < RunBounds(p, s)[j].0
    ensures forall lo: nat, hi: nat | IsMaximalRun(p, s, lo, hi) :: (lo, hi) in RunBounds(p, s)
  {
    hide Pass, Bounds, Runs, RunBounds, IsMaximalRun;
    RunsAreCutAtBounds(p, s);
    RunBoundsAreMaximal(p, s);
    forall lo: nat, hi: nat | IsMaximalRun(p, s, lo, hi) ensures (lo, hi) in RunBounds(p, s) {
      RunBoundsAreComplete(p, s, lo, hi);
    }
  }

  /** Every run is non-empty and made of p-characters. */
  lemma RunsAreWords(p: char -> bool, s: string)
    ensures forall w | w in Runs(p, s) :: w != "" && All(p, w)
  {
    RunsAreTheMaximalRuns(p, s);
    hide Runs, RunBounds;
    forall w | w in Runs(p, s) ensures w != "" && All(p, w) {
      var k :| 0 <= k < |Runs(p, s)| && Runs(p, s)[k] == w;
      var (lo, hi) := RunBounds(p, s)[k];
      assert w == s[lo..hi] && IsMaximalRun(p, s, lo, hi);
    }
  }

  lemma {:induction false} PassOfSeparator(p: char -> bool, a: string, sep: string)
    requires sep != "" && None(p, sep)
    ensures Pass(p, a + sep) == (Runs(p, a), "")
  {
    var n := |sep| - 1;
    assert (a + sep)[..|a| + n] == a + sep[..n];
    if n > 0 { PassOfSeparator(p, a, sep[..n]); } else { assert a + sep[..n] == a; }
  }

  lemma {:induction false} PassAfterSeparator(p: char -> bool, a: string, sep: string, b: string)
    requires sep != "" && None(p, sep)
    ensures Pass(p, a + sep + b) == (Runs(p, a) + Pass(p, b).0, Pass(p, b).1)
  {
    var s := a + sep + b;
    if b == "" {
      assert s == a + sep && Runs(p, a) + Pass(p, b).0 == Runs(p, a);
      PassOfSeparator(p, a, sep);
    } else {
      var t := b[..|b| - 1];
      assert s[..|s| - 1] == a + sep + t && s[|s| - 1] == b[|b| - 1];
      PassAfterSeparator(p, a, sep, t);
      var (done, open) := Pass(p, t);
      assert Pass(p, s[..|s| - 1]) == (Runs(p, a) + done, open);
      assert Flush(Runs(p, a) + done, open) == Runs(p, a) + Flush(done, open);
    }
  }

  /** Splitting distributes over a separator. */
  lemma RunsOfConcatenation(p: char -> bool, a: string, sep: string, b: string)
    requires sep != "" && None(p, sep)
    ensures Runs(p, a + sep + b) == Runs(p, a) + Runs(p, b)
  {
    PassAfterSeparator(p, a, sep, b);
  }

  lemma {:induction false} PassOfWord(p: char -> bool, w: string)
    requires All(p, w)
    ensures Pass(p, w) == ([], w)
  {
    if w != "" {
      PassOfWord(p, w[..|w| - 1]);
      assert w == w[..|w| - 1] + [w[|w| - 1]];
    }
  }

  /** Splitting undoes joining. */
  lemma {:induction false} RunsOfJoin(p: char -> bool, words: seq<string>, sep: string)
    requires sep != "" && None(p, sep)
    requires forall w | w in words :: w != "" && All(p, w)
    ensures Runs(p, Join(words, sep)) == words
  {
    if |words| > 0 {
      var n := |words| - 1;
      PassOfWord(p, words[n]);
      if n > 0 {
        RunsOfJoin(p, words[..n], sep);
        RunsOfConcatenation(p, Join(words[..n], sep), sep, words[n]);
      }
    }
  }

  /** Every character of a joined string comes from a part or from the separator. */
  lemma {:induction false} JoinedCharacters(parts: seq<string>, sep: string, p: char -> bool)
    requires All(p, sep) && forall w | w in parts :: All(p, w)
    ensures All(p, Join(parts, sep))
  {
    if |parts| > 1 {
      var front, last := parts[..|parts| - 1], parts[|parts| - 1];
      JoinedCharacters(front, sep, p);
      assert last in parts;
    }
  }

  /* ---------- Order ---------- */

  /** The order in which SQLite compares text. */
  predicate TextLess(a: string, b: string) {
    b != "" && (a == "" || a[0] < b[0] || (a[0] == b[0] && TextLess(a[1..], b[1..])))
  }

  lemma {:induction false} TextOrderIsTotal(a: string, b: string)
    ensures TextLess(a, b) || a == b || TextLess(b, a)
    ensures !(TextLess(a, b) && TextLess(b, a))
    ensures !TextLess(a, a)
  {
    if a != "" {
      TextOrderIsTotal(a[1..], if b != "" then b[1..] else "");
      if b != "" {
        assert a == [a[0]] + a[1..] && b == [b[0]] + b[1..];
        TextOrderIsTotal(a[1..], a[1..]);
      }
    }
  }

  lemma {:induction false} TextOrderIsTransitive(a: string, b: string, c: string)
    requires TextLess(a, b) && TextLess(b, c)
    ensures TextLess(a, c)
  {
    if a != "" && a[0] == b[0] == c[0] { TextOrderIsTransitive(a[1..], b[1..], c[1..]); }
  }
}
