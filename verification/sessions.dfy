/** The Markdown session files: their names and how they grow. */
module Sessions {
  import opened Text
  import opened Decimal
  import Recency

  /* ---------- File names ---------- */

  predicate IsKeyChar(c: char) {
    'a' <= c <= 'z' || '0' <= c <= '9' || c == '-' || c == '_'
  }

  function CleanRune(c: char): char {
    if 'A' <= c <= 'Z' then ((c as int) + 32) as char
    else if IsKeyChar(c) then c
    else '-'
  }

  predicate IsDash(c: char) {
    c == '-'
  }

  function CleanRunes(id: string): string {
    seq(|id|, i requires 0 <= i < |id| => CleanRune(id[i]))
  }

  function SanitizeID(id: string): string {
    var mapped := Trim(IsDash, CleanRunes(id));
    if mapped == "" then "session"
    else if |mapped| > 64 then mapped[..64]
    else mapped
  }

  /** The name, without extension, of the file that holds a session. */
  function FileKey(sessionID: string): string {
    SanitizeID(if Blank(sessionID) then "unknown" else sessionID)
  }

  lemma MappedKey(id: string)
    ensures var mapped := Trim(IsDash, CleanRunes(id));
            && All(IsKeyChar, mapped)
            && (mapped != "" ==> mapped[0] != '-' && mapped[|mapped| - 1] != '-')
  {
    var lo, hi := TrimIsMiddle(IsDash, CleanRunes(id));
  }

  /** A file name is 1 to 64 characters of [a-z0-9_-] and does not begin with a dash. */
  lemma KeyIsSafe(id: string)
    ensures var key := SanitizeID(id);
            1 <= |key| <= 64 && All(IsKeyChar, key) && key[0] != '-'
  {
    MappedKey(id);
  }

  lemma {:induction false} NothingToTrim(p: char -> bool, s: string)
    requires s != "" ==> !p(s[0]) && !p(s[|s| - 1])
    ensures Trim(p, s) == s
  {
  }

  /** What one character becomes: capitals are made small, letters, digits, "-" and "_" stay, all else becomes a dash. */
  predicate BecomesInKey(c: char, k: char) {
    if 'A' <= c <= 'Z' then 'a' <= k <= 'z' && k as int == c as int + 32
    else if 'a' <= c <= 'z' || '0' <= c <= '9' || c in {'-', '_'} then k == c
    else k == '-'
  }

  /**
   A file name, character by character: the stretch of the id between the first and the last that do not become dashes, cut
   after 64 characters; or "session" when there is none.
   */
  lemma KeyByCharacter(id: string) returns (lo: nat, hi: nat)
    ensures lo <= hi <= |id|
    ensures forall i | 0 <= i < lo || hi <= i < |id| :: BecomesInKey(id[i], '-')
    ensures lo < hi ==> !BecomesInKey(id[lo], '-') && !BecomesInKey(id[hi - 1], '-')
    ensures var key := SanitizeID(id);
            if lo == hi then key == "session"
            else |key| == (if hi - lo > 64 then 64 else hi - lo) && forall i | 0 <= i < |key| :: BecomesInKey(id[lo + i], key[i])
  {
    lo, hi := TrimIsMiddle(IsDash, CleanRunes(id));
    forall i | 0 <= i < |id| ensures BecomesInKey(id[i], CleanRunes(id)[i]) {}
  }

  /** Sanitizing a file name again changes it exactly when the 64-character cut left a dash at its end. */
  lemma SanitizingAgain(id: string)
    ensures var key := SanitizeID(id);
            SanitizeID(key) == key <==> key[|key| - 1] != '-'
  {
    var key := SanitizeID(id);
    KeyIsSafe(id);
    assert CleanRunes(key) == key;
    if key[|key| - 1] != '-' {
      NothingToTrim(IsDash, key);
    } else {
      MappedKey(key);
      assert key[0] == CleanRunes(key)[0];
      var lo, hi := TrimIsMiddle(IsDash, key);
      assert lo == 0 && hi < |key|;
    }
  }

  /** The cut can leave a dash at the end: 63 letters, a dash and one more character. */
  lemma CutLeavesDash(id: string)
    requires |id| == 65 && All(IsKeyChar, id) && id[0] != '-' && id[63] == '-' && id[64] != '-'
    ensures SanitizeID(id) == id[..64] && SanitizeID(SanitizeID(id)) != SanitizeID(id)
  {
    assert CleanRunes(id) == id;
    NothingToTrim(IsDash, id);
    SanitizingAgain(id);
  }

  /** Sanitizing twice is enough. */
  lemma SanitizingTwiceIsStable(id: string)
    ensures SanitizeID(SanitizeID(SanitizeID(id))) == SanitizeID(SanitizeID(id))
  {
    var key := SanitizeID(id);
    KeyIsSafe(id);
    assert CleanRunes(key) == key;
    var lo, hi := TrimIsMiddle(IsDash, key);
    assert !IsDash(key[0]);
    assert lo == 0 && hi > 0;
    SanitizingAgain(key);
  }

  lemma {:induction false} FormattedLength(n: nat, k: nat)
    requires 0 < k && n < Pow10(k)
    ensures |FormatNat(n)| <= k
  {
    if n >= 10 { FormattedLength(n / 10, k - 1); }
  }

  predicate IsInt64(n: int) {
    -0x8000_0000_0000_0000 <= n < 0x8000_0000_0000_0000
  }

  /** A chat's file is named after its number without the sign. */
  lemma ChatKey(chat: int)
    requires IsInt64(chat)
    ensures !Blank(FormatInt(chat))
    ensures FileKey(FormatInt(chat)) == FormatNat(if chat < 0 then -chat else chat)
  {
    var digits := FormatNat(if chat < 0 then -chat else chat);
    assert Pow10(19) == 10_000_000_000_000_000_000 by {
      assert Pow10(6) == 1_000_000;
      assert Pow10(12) == 1_000_000_000_000;
      assert Pow10(18) == 1_000_000_000_000_000_000;
    }
    FormattedLength(if chat < 0 then -chat else chat, 19);
    var id := FormatInt(chat);
    assert IsDigit(digits[0]) && digits[0] in id;
    assert CleanRunes(id) == id;
    assert chat < 0 ==> id[1..] == digits && TrimLeft(IsDash, id) == TrimLeft(IsDash, digits);
    assert IsDigit(digits[|digits| - 1]);
    NothingToTrim(IsDash, digits);
  }

  /** Two chats share a file exactly when their numbers differ at most in sign. */
  lemma ChatsShareAFile(a: int, b: int)
    requires IsInt64(a) && IsInt64(b)
    ensures FileKey(FormatInt(a)) == FileKey(FormatInt(b)) <==> a == b || a == -b
  {
    ChatKey(a);
    ChatKey(b);
    ParseFormattedNat(if a < 0 then -a else a);
    ParseFormattedNat(if b < 0 then -b else b);
  }

  /* ---------- File contents ---------- */

  datatype Entry = Entry(stamp: string, role: string, content: string)

  /** A session file: its first line, lost if writing it failed, and its entries. */
  datatype MarkdownFile = MarkdownFile(heading: string, entries: seq<Entry>)

  function EntryText(e: Entry): string {
    "## " + e.stamp + " " + e.role + "\n\n" + e.content + "\n\n"
  }

  function EntriesText(es: seq<Entry>): string {
    if es == [] then "" else EntriesText(es[..|es| - 1]) + EntryText(es[|es| - 1])
  }

  function FileText(f: MarkdownFile): string {
    f.heading + EntriesText(f.entries)
  }

  function Heading(sessionID: string): string {
    "# Session " + sessionID + "\n\n"
  }

  /** The files after e has been appended to a session. */
  function Appended(files: map<string, MarkdownFile>, sessionID: string, e: Entry): map<string, MarkdownFile> {
    var key := FileKey(sessionID);
    files[key := if key in files then MarkdownFile(files[key].heading, files[key].entries + [e])
                 else MarkdownFile(Heading(if Blank(sessionID) then "unknown" else sessionID), [e])]
  }

  /** A failed append leaves the files alone, or a new file with no entry in it. */
  ghost predicate FailedAppend(before: map<string, MarkdownFile>, after: map<string, MarkdownFile>, key: string) {
    || after == before
    || (key !in before && key in after && after[key].entries == [] && after == before[key := after[key]])
  }

  /** The session files. faults counts the file operations that have failed. */
  class Store {
    var files: map<string, MarkdownFile>
    ghost var faults: nat

    constructor ()
      ensures files == map[] && faults == 0
    {
      files := map[];
      faults := 0;
    }

    method Operation() returns (ok: bool)
      modifies this`faults
      ensures faults == old(faults) + if ok then 0 else 1
    {
      ok := *;
      if !ok { faults := faults + 1; }
    }

    method Append(sessionID: string, role: string, content: string) returns (ok: bool, ghost e: Entry, ghost now: int)
      modifies this
      ensures Recency.InRange(now) && e.stamp == Recency.Stamp(now)
      ensures e.role == ToLower(if Blank(role) then "user" else role) && e.content == TrimSpace(content)
      ensures faults >= old(faults) && (ok <==> faults == old(faults))
      ensures ok ==> files == Appended(old(files), sessionID, e)
      ensures !ok ==> FailedAppend(old(files), files, FileKey(sessionID))
    {
      hide SanitizeID, TrimSpace, ToLower, Blank, Heading, Recency.InRange, Recency.Stamp;
      var id := if Blank(sessionID) then "unknown" else sessionID;
      var kind := if Blank(role) then "user" else role;
      var key := SanitizeID(id);
      var reading := Recency.ReadClock();
      now := reading;
      var entry := Entry(Recency.Stamp(reading), ToLower(kind), TrimSpace(content));
      var ready := Operation();
      if !ready { return false, entry, now; }
      if key !in files {
        files := files[key := MarkdownFile("", [])];
        var headed := Operation();
        if !headed { return false, entry, now; }
        files := files[key := MarkdownFile(Heading(id), [])];
      }
      var written := Operation();
      if !written { return false, entry, now; }
      files := files[key := MarkdownFile(files[key].heading, files[key].entries + [entry])];
      assert [] + [entry] == [entry];
      return true, entry, now;
    }
  }

  /** Appending an entry leaves all earlier text in place and adds a title with its stamp and role, then its content. */
  lemma AppendedText(f: MarkdownFile, e: Entry)
    ensures FileText(MarkdownFile(f.heading, f.entries + [e])) ==
            FileText(f) + ("## " + e.stamp + " " + e.role + "\n\n" + e.content + "\n\n")
  {
    assert (f.entries + [e])[..|f.entries|] == f.entries;
  }

  /** The first append to a session begins its file with a title that names the session. */
  lemma FirstText(files: map<string, MarkdownFile>, sessionID: string, e: Entry)
    requires FileKey(sessionID) !in files
    ensures var id := if Blank(sessionID) then "unknown" else sessionID;
            FileText(Appended(files, sessionID, e)[FileKey(sessionID)]) ==
            "# Session " + id + "\n\n" + ("## " + e.stamp + " " + e.role + "\n\n" + e.content + "\n\n")
  {
    hide FileKey, EntryText;
    var heading := Heading(if Blank(sessionID) then "unknown" else sessionID);
    AppendedText(MarkdownFile(heading, []), e);
    assert [] + [e] == [e];
  }
}
