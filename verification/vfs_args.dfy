/** `parseWriteArgs`: how the `write` command splits its argument line into a
    file name and the content to write. */
module WriteArgs {
  import opened CType
  import opened VfsState

  /** The first index from i on that is not white space (or the end). */
  function SkipSpace(s: string, i: nat): (j: nat)
    requires i <= |s|
    ensures i <= j <= |s|
    ensures forall k :: i <= k < j ==> IsSpace(s[k])
    ensures j < |s| ==> !IsSpace(s[j])
    decreases |s| - i
  {
    if i < |s| && IsSpace(s[i]) then SkipSpace(s, i + 1) else i
  }

  /** Where the copy of the name stops: at white space, at the end, or after MAX_NAME_LEN
      characters, whichever comes first. */
  function NameEnd(s: string, i: nat): (j: nat)
    requires i <= |s|
    ensures i <= j <= |s| && j - i <= MAX_NAME_LEN
    ensures forall k :: i <= k < j ==> !IsSpace(s[k])
    ensures j < |s| && j - i < MAX_NAME_LEN ==> IsSpace(s[j])
    decreases |s| - i
  {
    NameEndFrom(s, i, i)
  }

  function NameEndFrom(s: string, i: nat, j: nat): (e: nat)
    requires i <= j <= |s| && j - i <= MAX_NAME_LEN
    requires forall k :: i <= k < j ==> !IsSpace(s[k])
    ensures j <= e <= |s| && e - i <= MAX_NAME_LEN
    ensures forall k :: i <= k < e ==> !IsSpace(s[k])
    ensures e < |s| && e - i < MAX_NAME_LEN ==> IsSpace(s[e])
    decreases |s| - j
  {
    if j < |s| && !IsSpace(s[j]) && j - i < MAX_NAME_LEN then NameEndFrom(s, i, j + 1) else j
  }

  /** The first index from i on holding q (or the end). */
  function Find(s: string, i: nat, q: char): (j: nat)
    requires i <= |s|
    ensures i <= j <= |s|
    ensures forall k :: i <= k < j ==> s[k] != q
    ensures j < |s| ==> s[j] == q
    decreases |s| - i
  {
    if i < |s| && s[i] != q then Find(s, i + 1, q) else i
  }

  /** s without its trailing run of '\n' and '\r'. */
  function TrimNewlines(s: string): (t: string)
    ensures |t| <= |s| && t == s[..|t|]
    ensures forall k :: |t| <= k < |s| ==> s[k] == '\n' || s[k] == '\r'
    ensures t == [] || (t[|t| - 1] != '\n' && t[|t| - 1] != '\r')
  {
    if s != [] && (s[|s| - 1] == '\n' || s[|s| - 1] == '\r') then
      var t := TrimNewlines(s[..|s| - 1]);
      assert s[..|s| - 1][..|t|] == s[..|t|];
      t
    else s
  }

  predicate IsQuote(c: char) {
    c == '"' || c == '\''
  }

  /** `parseWriteArgs(argline, outName, &outContent)`: white space is skipped; the name is
      the next run of at most MAX_NAME_LEN non-space characters; after more white space the
      content is either the text up to the matching quote (or the end) when it starts with
      a double or single quote, or the rest of the line without trailing newlines. No
      content (NULL) when the line ends after the name. */
  function ParseWriteArgs(line: string): (r: (string, Option<string>))
    ensures |r.0| <= MAX_NAME_LEN
    ensures forall k :: 0 <= k < |r.0| ==> !IsSpace(r.0[k])
    ensures r.0 == "" <==> forall k :: 0 <= k < |line| ==> IsSpace(line[k])
    ensures r.0 == "" ==> r.1 == None
  {
    var i0 := SkipSpace(line, 0);
    if i0 == |line| then ("", None)
    else
      var i1 := NameEnd(line, i0);
      var name := line[i0..i1];
      var i2 := SkipSpace(line, i1);
      if i2 == |line| then (name, None)
      else if IsQuote(line[i2]) then
        var close := Find(line, i2 + 1, line[i2]);
        (name, Some(line[i2 + 1..close]))
      else
        (name, Some(TrimNewlines(line[i2..])))
  }

  /** A name and a quoted text: the name and the text between the quotes; whatever follows
      the closing quote is ignored. */
  lemma ParseQuoted(name: string, q: char, text: string, tail: string)
    requires 0 < |name| <= MAX_NAME_LEN && forall k :: 0 <= k < |name| ==> !IsSpace(name[k])
    requires IsQuote(q) && q !in text
    ensures ParseWriteArgs(name + " " + [q] + text + [q] + tail) == (name, Some(text))
  {
    var line := name + " " + [q] + text + [q] + tail;
    var n := |name|;
    assert SkipSpace(line, 0) == 0 by {
      assert line[0] == name[0];
    }
    assert NameEnd(line, 0) == n by {
      assert forall k :: 0 <= k < n ==> line[k] == name[k];
      assert IsSpace(line[n]);
    }
    assert line[..n] == name;
    assert SkipSpace(line, n) == n + 1 by {
      assert SkipSpace(line, n + 1) == n + 1 by {
        assert line[n + 1] == q;
      }
    }
    var close := n + 2 + |text|;
    assert Find(line, n + 2, q) == close by {
      assert forall k :: n + 2 <= k < close ==> line[k] == text[k - n - 2];
      assert line[close] == q;
    }
    assert line[n + 2..close] == text;
  }

  /** A name and unquoted text without trailing newlines: the name and the text. */
  lemma ParseUnquoted(name: string, text: string)
    requires 0 < |name| <= MAX_NAME_LEN && forall k :: 0 <= k < |name| ==> !IsSpace(name[k])
    requires text != [] && !IsSpace(text[0]) && !IsQuote(text[0])
    requires text[|text| - 1] != '\n' && text[|text| - 1] != '\r'
    ensures ParseWriteArgs(name + " " + text) == (name, Some(text))
  {
    var line := name + " " + text;
    var n := |name|;
    assert SkipSpace(line, 0) == 0 by {
      assert line[0] == name[0];
    }
    assert NameEnd(line, 0) == n by {
      assert forall k :: 0 <= k < n ==> line[k] == name[k];
      assert IsSpace(line[n]);
    }
    assert line[..n] == name;
    assert SkipSpace(line, n) == n + 1 by {
      assert SkipSpace(line, n + 1) == n + 1 by {
        assert line[n + 1] == text[0];
      }
    }
    assert line[n + 1..] == text;
  }

  /** A name alone: the name and no content. */
  lemma ParseNameOnly(name: string)
    requires 0 < |name| <= MAX_NAME_LEN && forall k :: 0 <= k < |name| ==> !IsSpace(name[k])
    ensures ParseWriteArgs(name) == (name, None)
  {
    assert SkipSpace(name, 0) == 0;
    assert name[0..|name|] == name;
  }

  /** A name longer than MAX_NAME_LEN is cut after MAX_NAME_LEN characters, and the rest of
      it becomes the start of the content. */
  lemma LongNameSpills(name: string, text: string)
    requires |name| > MAX_NAME_LEN && forall k :: 0 <= k < |name| ==> !IsSpace(name[k])
    requires !IsQuote(name[MAX_NAME_LEN])
    requires text == [] || (text[|text| - 1] != '\n' && text[|text| - 1] != '\r')
    ensures ParseWriteArgs(name + " " + text) == (name[..MAX_NAME_LEN], Some(name[MAX_NAME_LEN..] + " " + text))
  {
    var line := name + " " + text;
    assert SkipSpace(line, 0) == 0 by {
      assert line[0] == name[0];
    }
    assert NameEnd(line, 0) == MAX_NAME_LEN by {
      assert forall k :: 0 <= k < MAX_NAME_LEN ==> line[k] == name[k];
    }
    assert line[..MAX_NAME_LEN] == name[..MAX_NAME_LEN];
    assert SkipSpace(line, MAX_NAME_LEN) == MAX_NAME_LEN by {
      assert line[MAX_NAME_LEN] == name[MAX_NAME_LEN];
    }
    assert line[MAX_NAME_LEN..] == name[MAX_NAME_LEN..] + " " + text;
    var rest := line[MAX_NAME_LEN..];
    assert rest[|rest| - 1] != '\n' && rest[|rest| - 1] != '\r' by {
      if text == [] {
        assert rest[|rest| - 1] == ' ';
      } else {
        assert rest[|rest| - 1] == text[|text| - 1];
      }
    }
  }
}
