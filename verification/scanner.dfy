/** The two regular-expression scans of the dashboard, written out by hand:
    `re.findall(r'@(\w+)', text)` for mentions and `str.findall(r'#\w+')` for
    hashtags. `\w` is taken as the ASCII class `[A-Za-z0-9_]`. */
module Scanner {

  predicate IsWordChar(c: char) {
    ('a' <= c <= 'z') || ('A' <= c <= 'Z') || ('0' <= c <= '9') || c == '_'
  }

  predicate AllWordChars(s: string) {
    forall i :: 0 <= i < |s| ==> IsWordChar(s[i])
  }

  /** Length of the longest prefix of `s` made of word characters: how far the
      greedy `\w+` reaches. */
  function RunLength(s: string): (n: nat)
    ensures n <= |s|
    ensures AllWordChars(s[..n])
    ensures n < |s| ==> !IsWordChar(s[n])
  {
    if s == [] || !IsWordChar(s[0]) then 0
    else
      var n := 1 + RunLength(s[1..]);
      assert forall i :: 1 <= i < n ==> s[..n][i] == s[1..][..n - 1][i - 1];
      n
  }

  /** The regex engine's left-to-right scan: at a `sigil` followed by a word
      character it takes the maximal run of word characters and resumes
      right after it; anywhere else it moves on one character. Returns the
      runs, without the sigil. */
  function Scan(s: string, sigil: char): (tokens: seq<string>)
    ensures forall k :: 0 <= k < |tokens| ==> |tokens[k]| > 0 && AllWordChars(tokens[k])
    decreases |s|
  {
    if |s| < 2 then []
    else if s[0] == sigil && IsWordChar(s[1]) then
      var n := RunLength(s[1..]);
      assert s[1..1 + n] == s[1..][..n];
      [s[1..1 + n]] + Scan(s[1 + n..], sigil)
    else Scan(s[1..], sigil)
  }

  /** A match of `sigil` followed by a word character starts at `i`. */
  predicate StartsAt(s: string, sigil: char, i: int) {
    0 <= i && i + 1 < |s| && s[i] == sigil && IsWordChar(s[i + 1])
  }

  /** The maximal run of word characters right after position `i`. */
  function RunAfter(s: string, i: nat): string
    requires i < |s|
  {
    s[i + 1..i + 1 + RunLength(s[i + 1..])]
  }

  /** Reference definition, without any skipping: for every position from `i`
      on, in order, where a sigil is followed by a word character, the run
      that follows it. */
  function RunsFrom(s: string, sigil: char, i: nat): seq<string>
    decreases |s| - i
  {
    if i >= |s| then []
    else (if StartsAt(s, sigil, i) then [RunAfter(s, i)] else []) + RunsFrom(s, sigil, i + 1)
  }

  /** No match can start inside a run of word characters when the sigil is
      not itself a word character. */
  lemma {:induction false} NoStartInsideRun(s: string, sigil: char, a: nat, b: nat)
    requires !IsWordChar(sigil)
    requires a <= b <= |s|
    requires forall j :: a <= j < b ==> IsWordChar(s[j])
    ensures RunsFrom(s, sigil, a) == RunsFrom(s, sigil, b)
    decreases b - a
  {
    if a < b {
      assert !StartsAt(s, sigil, a);
      NoStartInsideRun(s, sigil, a + 1, b);
    }
  }

  /** At a match the scan emits `RunAfter(s, i)` and resumes at `next`, the
      first position after the run; the reference definition emits the same
      run and finds nothing more before `next`. */
  lemma ScanAtMatch(s: string, sigil: char, i: nat) returns (next: nat)
    requires !IsWordChar(sigil)
    requires StartsAt(s, sigil, i)
    ensures i < next <= |s|
    ensures Scan(s[i..], sigil) == [RunAfter(s, i)] + Scan(s[next..], sigil)
    ensures RunsFrom(s, sigil, i) == [RunAfter(s, i)] + RunsFrom(s, sigil, next)
  {
    var n := RunLength(s[i + 1..]);
    next := i + 1 + n;
    var t := s[i..];
    assert t[1..] == s[i + 1..];
    assert t[1..1 + n] == RunAfter(s, i);
    assert t[1 + n..] == s[next..];
    forall j | i + 1 <= j < next ensures IsWordChar(s[j]) {
      assert s[j] == s[i + 1..][..n][j - i - 1];
    }
    NoStartInsideRun(s, sigil, i + 1, next);
  }

  lemma {:induction false} ScanSuffix(s: string, sigil: char, i: nat)
    requires !IsWordChar(sigil)
    requires i <= |s|
    ensures Scan(s[i..], sigil) == RunsFrom(s, sigil, i)
    decreases |s| - i
  {
    var t := s[i..];
    if |t| < 2 {
      if i < |s| {
        assert !StartsAt(s, sigil, i);
      }
    } else if StartsAt(s, sigil, i) {
      var next := ScanAtMatch(s, sigil, i);
      ScanSuffix(s, sigil, next);
    } else {
      assert t[1..] == s[i + 1..];
      ScanSuffix(s, sigil, i + 1);
    }
  }

  /** The scan finds exactly the runs after every sigil that is followed by a
      word character, left to right, duplicates kept. */
  lemma ScanFindsEveryRun(s: string, sigil: char)
    requires !IsWordChar(sigil)
    ensures Scan(s, sigil) == RunsFrom(s, sigil, 0)
  {
    assert s[0..] == s;
    ScanSuffix(s, sigil, 0);
  }

  /** `re.findall(r'@(\w+)', text)`: the mentioned names, without the `@`. */
  function Mentions(text: string): (names: seq<string>)
    ensures names == RunsFrom(text, '@', 0)
    ensures forall k :: 0 <= k < |names| ==> |names[k]| > 0 && AllWordChars(names[k])
  {
    ScanFindsEveryRun(text, '@');
    Scan(text, '@')
  }

  /** `str.findall(r'#\w+')`: the hashtags, each keeping its leading `#`. */
  function Hashtags(text: string): (tags: seq<string>)
    ensures |tags| == |RunsFrom(text, '#', 0)|
    ensures forall k :: 0 <= k < |tags| ==> tags[k] == "#" + RunsFrom(text, '#', 0)[k]
    ensures forall k :: 0 <= k < |tags| ==> |tags[k]| > 1 && tags[k][0] == '#' && AllWordChars(tags[k][1..])
  {
    ScanFindsEveryRun(text, '#');
    var runs := Scan(text, '#');
    seq(|runs|, k requires 0 <= k < |runs| => "#" + runs[k])
  }

  /** One step of the scan at a position where no match starts. */
  lemma ScanSkips(s: string, sigil: char)
    requires |s| >= 2 && !(s[0] == sigil && IsWordChar(s[1]))
    ensures Scan(s, sigil) == Scan(s[1..], sigil)
  {
  }

  lemma ExampleLastHashtag(t: string)
    requires t == "#b @c"
    ensures Scan(t, '#') == ["b"]
  {
    assert t[2..] == " @c" && t[3..] == "@c";
    ScanSkips(t[2..], '#');
    ScanSkips(t[3..], '#');
    assert t[2..][1..] == t[3..] && t[3..][1..] == "c";
    assert Scan(t[2..], '#') == [];
    assert RunLength(t[1..]) == 1 by {
      assert t[1..][1..] == " @c";
    }
    assert t[1..2] == "b";
  }

  lemma ExampleBothHashtags(t: string)
    requires t == "#a #b @c"
    ensures Scan(t, '#') == ["a", "b"]
  {
    ExampleLastHashtag(t[3..]);
    ScanSkips(t[2..], '#');
    assert t[2..][1..] == t[3..];
    assert RunLength(t[1..]) == 1 by {
      assert t[1..][1..] == " #b @c";
    }
    assert t[1..2] == "a";
  }

  lemma ExampleHashtagScan(s: string)
    requires s == "hello #a #b @c"
    ensures Scan(s, '#') == ["a", "b"]
  {
    ExampleBothHashtags(s[6..]);
    assert s[6..] == "#a #b @c";
    SkipPrefix(s, '#', 6);
  }

  /** Where no match starts before position `k`, the scan begins at `k`. */
  lemma {:induction false} SkipPrefix(s: string, sigil: char, k: nat)
    requires k <= |s|
    requires forall i :: 0 <= i < k ==> !(s[i] == sigil && i + 1 < |s| && IsWordChar(s[i + 1]))
    requires k < |s| || k == 0
    ensures Scan(s, sigil) == Scan(s[k..], sigil)
    decreases k
  {
    if k > 0 {
      if |s| >= 2 {
        ScanSkips(s, sigil);
        assert s[1..][k - 1..] == s[k..];
        SkipPrefix(s[1..], sigil, k - 1);
      }
    }
  }

  lemma ExampleMentionScan(s: string)
    requires s == "hello #a #b @c"
    ensures Scan(s, '@') == ["c"]
  {
    assert Scan("@c", '@') == ["c"] by {
      assert "@c"[1..] == "c" && "@c"[1..2] == "c" && "@c"[2..] == "";
      assert RunLength("c") == 1;
    }
    assert s[12..] == "@c";
    SkipPrefix(s, '@', 12);
  }

  /** A worked example: two hashtags and one mention. */
  lemma ExampleTokens(text: string)
    requires text == "hello #a #b @c"
    ensures Hashtags(text) == ["#a", "#b"]
    ensures Mentions(text) == ["c"]
  {
    ExampleHashtagScan(text);
    ExampleMentionScan(text);
    assert "#" + "a" == "#a" && "#" + "b" == "#b";
  }
}
