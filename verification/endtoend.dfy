/** From a session file to a search result: an appended message can be found after the next successful scan. */
module EndToEnd {
  import opened Text
  import opened Tokenizer
  import opened IndexTable
  import opened Indexer
  import opened Search
  import opened Sessions

  /** Tokens of a text, as a set. */
  ghost function Words(text: string): set<string> {
    Elements(Tokens(text))
  }

  lemma WordsOfConcatenation(a: string, sep: string, b: string)
    requires sep != "" && None(IsAlnum, ToLower(sep))
    ensures Words(a + sep + b) == Words(a) + Words(b)
  {
    hide ToLower, Tokens;
    TokensOfConcatenation(a, sep, b);
    UniqueKeepsEachWordOnce(Tokens(a) + Tokens(b));
    TokensAreDistinctWords(a);
    TokensAreDistinctWords(b);
    assert Elements(Tokens(a) + Tokens(b)) == Words(a) + Words(b);
    assert "" !in Words(a) + Words(b);
  }

  lemma NoWordsInNothing()
    ensures Words("") == {}
  {
    assert ToLower("") == "";
  }

  lemma SpaceSeparates(sep: string)
    requires forall k | 0 <= k < |sep| :: IsSpace(sep[k])
    ensures None(IsAlnum, ToLower(sep))
  {
  }

  /** White space around a text holds no tokens. */
  lemma WordsOfPaddedText(before: string, text: string, after: string)
    requires forall k | 0 <= k < |before| :: IsSpace(before[k])
    requires forall k | 0 <= k < |after| :: IsSpace(after[k])
    ensures Words(before + text + after) == Words(text)
  {
    hide Words, ToLower;
    SpaceSeparates(before);
    SpaceSeparates(after);
    NoWordsInNothing();
    var rest := text + after;
    assert before + text + after == before + rest;
    if before != "" {
      assert "" + before + rest == before + rest;
      WordsOfConcatenation("", before, rest);
    } else {
      assert before + rest == rest;
    }
    if after != "" {
      assert text + after + "" == rest;
      WordsOfConcatenation(text, after, "");
    } else {
      assert rest == text;
    }
  }

  /** Trimming loses no tokens. */
  lemma TrimmingKeepsWords(text: string)
    ensures Words(TrimSpace(text)) == Words(text)
  {
    var lo, hi := TrimIsMiddle(IsSpace, text);
    assert TrimSpace(text) == text[lo..hi];
    hide Words, TrimSpace, IsSpace;
    WordsOfPaddedText(text[..lo], text[lo..hi], text[hi..]);
    assert text[..lo] + text[lo..hi] + text[hi..] == text;
  }

  lemma MarksSeparate()
    ensures None(IsAlnum, ToLower("## ")) && None(IsAlnum, ToLower("\n\n"))
  {
    assert ToLower("## ") == "## " && ToLower("\n\n") == "\n\n";
  }

  /** An entry's text adds the tokens of its first line and of its content to those of the text before it. */
  lemma WordsOfAppendedEntry(before: string, e: Entry)
    ensures Words(before + EntryText(e)) == Words(before) + Words(e.stamp + " " + e.role) + Words(e.content)
  {
    hide Words, ToLower;
    MarksSeparate();
    NoWordsInNothing();
    var title := e.stamp + " " + e.role;
    var body := e.content + "\n\n" + "";
    var entry := title + "\n\n" + body;
    assert before + EntryText(e) == before + "## " + entry;
    WordsOfConcatenation(before, "## ", entry);
    WordsOfConcatenation(title, "\n\n", body);
    WordsOfConcatenation(e.content, "\n\n", "");
  }

  /** After an append, the session's file holds every token of the message and every token it held before. */
  lemma AppendAddsWords(files: map<string, MarkdownFile>, sessionID: string, message: string, e: Entry)
    requires e.content == TrimSpace(message)
    ensures var key := FileKey(sessionID);
            var words := Words(FileText(Appended(files, sessionID, e)[key]));
            Words(message) <= words && (key in files ==> Words(FileText(files[key])) <= words)
  {
    assert EntryText(e) == "## " + e.stamp + " " + e.role + "\n\n" + e.content + "\n\n";
    hide Words, TrimSpace, FileKey, Heading, EntryText, Blank;
    var key := FileKey(sessionID);
    var f := if key in files then files[key] else MarkdownFile(Heading(if Blank(sessionID) then "unknown" else sessionID), []);
    assert [] + [e] == [e];
    AppendedText(f, e);
    WordsOfAppendedEntry(FileText(f), e);
    TrimmingKeepsWords(message);
  }

  /** Where a session's file lies. */
  function SessionPath(dir: string, sessionID: string): string {
    dir + "/" + FileKey(sessionID) + ".md"
  }

  /** One of the roots covers the sessions directory: walking it reports the session's file. */
  ghost predicate Covers(disk: Disk, roots: seq<string>, dir: string, sessionID: string) {
    exists i :: 0 <= i < |roots| && TrimSpace(roots[i]) != ""
      && Visit.Entry(SessionPath(dir, sessionID), FileKey(sessionID) + ".md", false) in disk.walk(TrimSpace(roots[i]))
  }

  lemma SessionFileIsMarkdown(dir: string, sessionID: string)
    ensures IsMarkdown(Visit.Entry(SessionPath(dir, sessionID), FileKey(sessionID) + ".md", false))
  {
    hide FileKey;
    var name := FileKey(sessionID) + ".md";
    assert ToLower(name)[|name| - 3..] == ToLower(".md") == ".md";
  }

  /** A session's file is watched when a root covers it. */
  lemma CoveredSessionIsWatched(disk: Disk, roots: seq<string>, dir: string, sessionID: string)
    requires Covers(disk, roots, dir, sessionID)
    ensures SessionPath(dir, sessionID) in Watched(disk, roots)
  {
    hide IsMarkdown, TrimSpace, FileKey;
    var v := Visit.Entry(SessionPath(dir, sessionID), FileKey(sessionID) + ".md", false);
    SessionFileIsMarkdown(dir, sessionID);
    var i :| 0 <= i < |roots| && TrimSpace(roots[i]) != "" && v in disk.walk(TrimSpace(roots[i]));
    assert Reports(disk, roots, v);
    WatchedIsReported(disk, roots, v.path);
  }

  /** The disk when the session's file reads as the append has left it. */
  ghost predicate ReadsBack(disk: Disk, dir: string, sessionID: string, files: map<string, MarkdownFile>, e: Entry) {
    && SessionPath(dir, sessionID) in disk.files
    && disk.files[SessionPath(dir, sessionID)] == FileText(Appended(files, sessionID, e)[FileKey(sessionID)])
  }

  /** After an append and one successful scan, the file's row stores every token of the message, and every earlier one. */
  lemma AppendedWordsAreStored(
    files: map<string, MarkdownFile>, dir: string, sessionID: string, message: string, e: Entry,
    disk: Disk, roots: seq<string>, before: map<string, Row>, after: map<string, Row>)
    requires e.content == TrimSpace(message)
    requires Covers(disk, roots, dir, sessionID) && ReadsBack(disk, dir, sessionID, files, e)
    requires ScanEffect(Watched(disk, roots), disk.files, before, after) && SoundRows(before)
    requires var path := SessionPath(dir, sessionID);
             path in before ==> !Collides(before[path].doc, disk.files[path])
    ensures var path := SessionPath(dir, sessionID);
            && path in after && after[path].doc == Indexed(disk.files[path])
            && Words(message) <= Elements(Fields(after[path].doc.tokens))
            && (FileKey(sessionID) in files ==>
                  Words(FileText(files[FileKey(sessionID)])) <= Elements(Fields(after[path].doc.tokens)))
  {
    hide FileText, Appended, Tokens, TokenColumn, FileKey, TrimSpace, Covers, Watched;
    var path := SessionPath(dir, sessionID);
    AppendAddsWords(files, sessionID, message, e);
    CoveredSessionIsWatched(disk, roots, dir, sessionID);
    assert Refreshed(before, after, path, disk.files[path]);
    ColumnRoundTrip(disk.files[path]);
  }

  /**
   After a message has been appended and one scan of the resting files has succeeded, any query that shares a token with
   the message, or with what its file held before, finds that file; provided that the roots cover the file, that no hash
   collision hides the change, that at most 200 rows are stored, and that the limit admits every match.
   */
  lemma AppendedMessageIsFound(
    files: map<string, MarkdownFile>, dir: string, sessionID: string, message: string, e: Entry,
    disk: Disk, roots: seq<string>, before: map<string, Row>, after: map<string, Row>,
    query: string, token: string, listed: seq<string>, limit: nat, matches: seq<Match>)
    requires e.content == TrimSpace(message)
    requires Covers(disk, roots, dir, sessionID) && ReadsBack(disk, dir, sessionID, files, e)
    requires ScanEffect(Watched(disk, roots), disk.files, before, after) && SoundRows(before)
    requires var path := SessionPath(dir, sessionID);
             path in before ==> !Collides(before[path].doc, disk.files[path])
    requires |after| <= 200 && IsListing(after, 200, listed)
    requires IsTopK(Candidates(after, Elements(listed), query), limit, matches)
    requires |Candidates(after, Elements(listed), query)| <= limit
    requires token in Words(query)
    requires || token in Words(message)
             || (FileKey(sessionID) in files && token in Words(FileText(files[FileKey(sessionID)])))
    ensures exists m :: m in matches && m.path == SessionPath(dir, sessionID)
  {
    hide FileText, Appended, Tokens, IsTopK, Candidates, Collides, FileKey, TrimSpace, Fields, Covers, Watched, ScanEffect;
    var path := SessionPath(dir, sessionID);
    AppendedWordsAreStored(files, dir, sessionID, message, e, disk, roots, before, after);
    ColumnRoundTrip(disk.files[path]);
    ShortListingIsComplete(after, 200, listed);
    assert path in Elements(listed);
    SharedTokenIsFound(after, listed, query, limit, matches, path, token);
  }
}
