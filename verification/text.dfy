/** Python string operations the ingestion code relies on: whitespace splitting (`str.split()`),
    joining (`sep.join(parts)`), stripping (`str.strip()`), splitting on a separator
    (`str.split(sep)`), and substring search (`pat in s`). */
module Text {
  import opened Sequences

  /** Python's `str.isspace()` for one code point: the characters `str.split()` and `str.strip()`
      treat as whitespace. */
  predicate IsSpace(c: char)
  {
    || ('\t' <= c <= '\r')
    || ('\U{1C}' <= c <= ' ')
    || c == '\U{85}'
    || c == '\U{A0}'
    || c == '\U{1680}'
    || ('\U{2000}' <= c <= '\U{200A}')
    || c == '\U{2028}'
    || c == '\U{2029}'
    || c == '\U{202F}'
    || c == '\U{205F}'
    || c == '\U{3000}'
  }

  predicate NoSpace(w: string)
  {
    forall i | 0 <= i < |w| :: !IsSpace(w[i])
  }

  /** A string made of whitespace only (possibly empty). */
  predicate IsBlank(s: string)
  {
    forall i | 0 <= i < |s| :: IsSpace(s[i])
  }

  /** A non-empty run of non-whitespace characters, as `str.split()` produces. */
  predicate IsWord(w: string)
  {
    |w| > 0 && NoSpace(w)
  }

  /** The text in normal form: whitespace is only ever a single `' '` with a non-whitespace
      character on each side (so none leads, none trails, and no two are adjacent). */
  predicate WellSpaced(r: string)
  {
    forall i | 0 <= i < |r| && IsSpace(r[i]) ::
      r[i] == ' ' && 0 < i < |r| - 1 && !IsSpace(r[i + 1])
  }

  /** The non-whitespace characters of `s`, in order. */
  function NonSpace(s: string): string
  {
    if |s| == 0 then []
    else (if IsSpace(s[0]) then [] else [s[0]]) + NonSpace(s[1..])
  }

  /** Length of the leading run of non-whitespace characters. */
  function WordEnd(s: string): (k: nat)
    ensures k <= |s|
    ensures NoSpace(s[..k])
    ensures k < |s| ==> IsSpace(s[k])
  {
    if |s| == 0 || IsSpace(s[0]) then 0
    else
      var k := 1 + WordEnd(s[1..]);
      assert s[..k] == [s[0]] + s[1..][..k - 1];
      k
  }

  /** Python's `s.split()` with no separator: the maximal whitespace-free runs, in order. */
  function Words(s: string): (ws: seq<string>)
    ensures forall k | 0 <= k < |ws| :: IsWord(ws[k])
    decreases |s|
  {
    if |s| == 0 then []
    else if IsSpace(s[0]) then Words(s[1..])
    else
      var k := WordEnd(s);
      [s[..k]] + Words(s[k..])
  }

  /** Python's `sep.join(parts)`. */
  function Join(sep: string, parts: seq<string>): string
  {
    if |parts| == 0 then []
    else if |parts| == 1 then parts[0]
    else parts[0] + sep + Join(sep, parts[1..])
  }

  /** Python's `" ".join(s.split())`: whitespace runs collapsed to one space, ends trimmed. */
  function Normalize(s: string): string
  {
    Join(" ", Words(s))
  }

  /** Python's `s.lstrip()`. */
  function StripLeft(s: string): (r: string)
    ensures |r| <= |s| && r == s[|s| - |r|..]
    ensures IsBlank(s[..|s| - |r|])
    ensures |r| == 0 || !IsSpace(r[0])
  {
    if |s| > 0 && IsSpace(s[0]) then
      var r := StripLeft(s[1..]);
      StripLeftStep(s, r);
      r
    else s
  }

  /** Dropping one more leading whitespace character keeps the removed prefix blank. */
  lemma StripLeftStep(s: string, r: string)
    requires |s| > 0 && IsSpace(s[0])
    requires |r| <= |s| - 1 && r == s[1..][|s| - 1 - |r|..] && IsBlank(s[1..][..|s| - 1 - |r|])
    ensures r == s[|s| - |r|..] && IsBlank(s[..|s| - |r|])
  {
    var k := |s| - |r|;
    forall i | 1 <= i < k ensures IsSpace(s[..k][i]) {
      assert s[..k][i] == s[1..][..k - 1][i - 1];
    }
  }

  /** Python's `s.rstrip()`. */
  function StripRight(s: string): (r: string)
    ensures |r| <= |s| && r == s[..|r|]
    ensures IsBlank(s[|r|..])
    ensures |r| == 0 || !IsSpace(r[|r| - 1])
  {
    if |s| > 0 && IsSpace(s[|s| - 1]) then
      var r := StripRight(s[..|s| - 1]);
      assert s[|r|..] == s[..|s| - 1][|r|..] + [s[|s| - 1]];
      r
    else s
  }

  /** Python's `s.strip()`. */
  function Strip(s: string): string
  {
    StripRight(StripLeft(s))
  }

  /** Python's `pat in s` for strings: `pat` occurs as a contiguous substring of `s`. */
  predicate Contains(s: string, pat: string)
  {
    exists i | 0 <= i <= |s| :: OccursAt(s, pat, i)
  }

  /** `pat` occurs in `s` starting at index `i`. */
  predicate OccursAt(s: string, pat: string, i: nat)
  {
    i + |pat| <= |s| && s[i..i + |pat|] == pat
  }

  /** Python's `s.endswith(suffix)`. */
  predicate EndsWith(s: string, suffix: string)
  {
    |suffix| <= |s| && s[|s| - |suffix|..] == suffix
  }

  /** Python's `s.split(sep)` for a one-character separator: the pieces between separators,
      empty pieces included. */
  function SplitOn(s: string, sep: char): (parts: seq<string>)
    ensures |parts| > 0
    decreases |s|
  {
    if sep in s then
      var i := FirstIndex(s, sep);
      [s[..i]] + SplitOn(s[i + 1..], sep)
    else [s]
  }

  // ---------------------------------------------------------------------------
  // Facts about whitespace filtering

  lemma {:induction false} NonSpaceAppend(a: string, b: string)
    ensures NonSpace(a + b) == NonSpace(a) + NonSpace(b)
    decreases |a|
  {
    if |a| == 0 {
      assert a + b == b;
    } else {
      assert (a + b)[1..] == a[1..] + b;
      NonSpaceAppend(a[1..], b);
    }
  }

  lemma {:induction false} NonSpaceOfNoSpace(w: string)
    requires NoSpace(w)
    ensures NonSpace(w) == w
    decreases |w|
  {
    if |w| > 0 {
      NonSpaceOfNoSpace(w[1..]);
    }
  }

  lemma {:induction false} NonSpaceEmptyIffBlank(s: string)
    ensures NonSpace(s) == [] <==> IsBlank(s)
    decreases |s|
  {
    if |s| > 0 {
      NonSpaceEmptyIffBlank(s[1..]);
      if IsBlank(s[1..]) && IsSpace(s[0]) {
        forall i | 0 <= i < |s| ensures IsSpace(s[i]) {
          if i > 0 { assert s[i] == s[1..][i - 1]; }
        }
      }
      if IsBlank(s) {
        assert forall i | 0 <= i < |s| - 1 :: s[1..][i] == s[i + 1];
      }
    }
  }

  // ---------------------------------------------------------------------------
  // Facts about Words

  /** `s.split()` keeps every non-whitespace character, in order, and nothing else. */
  lemma {:induction false} WordsKeepText(s: string)
    ensures Flatten(Words(s)) == NonSpace(s)
    decreases |s|
  {
    if |s| == 0 {
    } else if IsSpace(s[0]) {
      WordsKeepText(s[1..]);
    } else {
      var k := WordEnd(s);
      var ws := Words(s);
      assert ws == [s[..k]] + Words(s[k..]);
      assert ws[1..] == Words(s[k..]);
      WordsKeepText(s[k..]);
      NonSpaceOfNoSpace(s[..k]);
      assert s == s[..k] + s[k..];
      NonSpaceAppend(s[..k], s[k..]);
    }
  }

  /** The leading word of `w + rest` is `w` when `rest` is empty or starts with whitespace. */
  lemma {:induction false} WordEndOfWordThen(w: string, rest: string)
    requires NoSpace(w)
    requires |rest| == 0 || IsSpace(rest[0])
    ensures WordEnd(w + rest) == |w|
    decreases |w|
  {
    if |w| > 0 {
      assert (w + rest)[1..] == w[1..] + rest;
      WordEndOfWordThen(w[1..], rest);
    } else {
      assert w + rest == rest;
    }
  }

  /** A word followed by whitespace (or by nothing) is split off as the first word. */
  lemma WordsOfWordThen(w: string, rest: string)
    requires IsWord(w)
    requires |rest| == 0 || IsSpace(rest[0])
    ensures Words(w + rest) == [w] + Words(rest)
  {
    var s := w + rest;
    WordEndOfWordThen(w, rest);
    assert s[..|w|] == w;
    assert s[|w|..] == rest;
  }

  /** Splitting the space-joined words gives the words back. */
  lemma {:induction false} WordsOfJoin(ws: seq<string>)
    requires forall k | 0 <= k < |ws| :: IsWord(ws[k])
    ensures Words(Join(" ", ws)) == ws
    decreases |ws|
  {
    if |ws| == 0 {
    } else if |ws| == 1 {
      WordsOfWordThen(ws[0], []);
      assert ws[0] + [] == ws[0];
    } else {
      var rest := Join(" ", ws[1..]);
      WordsOfJoin(ws[1..]);
      assert ws[0] + " " + rest == ws[0] + (" " + rest);
      WordsOfWordThen(ws[0], " " + rest);
      assert (" " + rest)[1..] == rest;
      assert ws == [ws[0]] + ws[1..];
    }
  }

  lemma {:induction false} WordsEmptyIffBlank(s: string)
    ensures Words(s) == [] <==> IsBlank(s)
  {
    var ws := Words(s);
    WordsKeepText(s);
    NonSpaceEmptyIffBlank(s);
    if ws != [] {
      assert Flatten(ws) == ws[0] + Flatten(ws[1..]);
      assert |Flatten(ws)| > 0;
    }
  }

  // ---------------------------------------------------------------------------
  // Facts about Join

  lemma JoinPrefix(sep: string, parts: seq<string>)
    requires |parts| > 0
    ensures |parts[0]| <= |Join(sep, parts)|
    ensures Join(sep, parts)[..|parts[0]|] == parts[0]
  {
  }

  /** Joining words with single spaces gives a well-spaced text whose first character is the
      first word's. */
  lemma {:induction false} JoinWordsWellSpaced(ws: seq<string>)
    requires forall k | 0 <= k < |ws| :: IsWord(ws[k])
    ensures WellSpaced(Join(" ", ws))
    ensures |ws| > 0 ==> IsWord(ws[0]) && |Join(" ", ws)| > 0 && Join(" ", ws)[0] == ws[0][0]
    decreases |ws|
  {
    if |ws| == 1 {
      assert Join(" ", ws) == ws[0];
    } else if |ws| > 1 {
      var w := ws[0];
      var rest := Join(" ", ws[1..]);
      JoinWordsWellSpaced(ws[1..]);
      var r := w + " " + rest;
      assert Join(" ", ws) == r;
      forall i | 0 <= i < |r| && IsSpace(r[i])
        ensures r[i] == ' ' && 0 < i < |r| - 1 && !IsSpace(r[i + 1])
      {
        if i == |w| {
          assert r[i + 1] == rest[0] == ws[1][0];
        } else {
          assert r[i] == rest[i - |w| - 1];
          assert r[i + 1] == rest[i - |w|];
        }
      }
    }
  }

  /** Python's join keeps every character of the parts and adds only separators. */
  lemma {:induction false} JoinWordsKeepText(ws: seq<string>)
    requires forall k | 0 <= k < |ws| :: IsWord(ws[k])
    ensures NonSpace(Join(" ", ws)) == Flatten(ws)
    decreases |ws|
  {
    if |ws| == 1 {
      NonSpaceOfNoSpace(ws[0]);
      assert Flatten(ws) == ws[0] + Flatten([]);
    } else if |ws| > 1 {
      var rest := Join(" ", ws[1..]);
      JoinWordsKeepText(ws[1..]);
      NonSpaceOfNoSpace(ws[0]);
      NonSpaceAppend(ws[0], " " + rest);
      NonSpaceAppend(" ", rest);
      assert ws[0] + " " + rest == ws[0] + (" " + rest);
    }
  }

  // ---------------------------------------------------------------------------
  // Whitespace normalisation: the promises of `" ".join(s.split())`

  /** The normalised text is well spaced and keeps exactly the non-whitespace characters. */
  lemma NormalizeShape(s: string)
    ensures WellSpaced(Normalize(s))
    ensures NonSpace(Normalize(s)) == NonSpace(s)
  {
    JoinWordsWellSpaced(Words(s));
    JoinWordsKeepText(Words(s));
    WordsKeepText(s);
  }

  /** The normalised text is empty exactly when the input is blank. */
  lemma NormalizeEmptyIffBlank(s: string)
    ensures Normalize(s) == [] <==> IsBlank(s)
  {
    WordsEmptyIffBlank(s);
    JoinWordsWellSpaced(Words(s));
  }

  /** Normalising twice is normalising once, and the words are unchanged. */
  lemma NormalizeIdempotent(s: string)
    ensures Words(Normalize(s)) == Words(s)
    ensures Normalize(Normalize(s)) == Normalize(s)
  {
    WordsOfJoin(Words(s));
  }

  /** A well-spaced text has no line breaks. */
  lemma WellSpacedNoNewline(r: string)
    requires WellSpaced(r)
    ensures '\n' !in r
  {
    if '\n' in r {
      var i :| 0 <= i < |r| && r[i] == '\n';
      assert IsSpace(r[i]);
    }
  }

  // ---------------------------------------------------------------------------
  // Facts about Strip

  lemma BlankAppend(a: string, b: string)
    requires IsBlank(a) && IsBlank(b)
    ensures IsBlank(a + b)
  {
    forall i | 0 <= i < |a + b| ensures IsSpace((a + b)[i]) {
      if i < |a| { assert (a + b)[i] == a[i]; } else { assert (a + b)[i] == b[i - |a|]; }
    }
  }

  /** `s.strip()` is empty exactly when `s` is blank. */
  lemma StripEmptyIffBlank(s: string)
    ensures Strip(s) == [] <==> IsBlank(s)
  {
    var l := StripLeft(s);
    var pre := s[..|s| - |l|];
    assert s == pre + l;
    if StripRight(l) == [] {
      assert l[0..] == l;
      BlankAppend(pre, l);
    } else {
      assert StripRight(l)[0] == l[0];
      assert s[|pre|] == l[0];
    }
  }

  /** A non-empty `s.strip()` starts and ends with a non-whitespace character. */
  lemma StripEnds(s: string)
    requires Strip(s) != []
    ensures !IsSpace(Strip(s)[0]) && !IsSpace(Strip(s)[|Strip(s)| - 1])
  {
    assert Strip(s)[0] == StripLeft(s)[0];
  }

  /** When `s` does not start with whitespace, `s.strip()` is `s` with its trailing
      whitespace removed: `s` is the stripped text followed by whitespace. */
  lemma StripNoLeadingSpace(s: string)
    requires |s| > 0 && !IsSpace(s[0])
    ensures Strip(s) == StripRight(s)
    ensures |Strip(s)| > 0 && s == Strip(s) + s[|Strip(s)|..] && IsBlank(s[|Strip(s)|..])
  {
    assert StripLeft(s) == s;
  }

  /** A substring of a substring is a substring. */
  lemma ContainsTrans(s: string, mid: string, pat: string)
    requires Contains(s, mid) && Contains(mid, pat)
    ensures Contains(s, pat)
  {
    var i :| 0 <= i <= |s| && OccursAt(s, mid, i);
    var j :| 0 <= j <= |mid| && OccursAt(mid, pat, j);
    forall m | 0 <= m < |pat| ensures s[i + j + m] == pat[m] {
      assert s[i + j + m] == s[i..i + |mid|][j + m] == mid[j + m];
      assert mid[j + m] == mid[j..j + |pat|][m];
    }
    assert OccursAt(s, pat, i + j);
  }

  /** Each side of a concatenation occurs in it. */
  lemma ContainsConcat(a: string, b: string)
    ensures Contains(a + b, a) && Contains(a + b, b)
  {
    assert OccursAt(a + b, a, 0);
    assert OccursAt(a + b, b, |a|);
  }

  /** Every part occurs in the joined text. */
  lemma {:induction false} JoinContainsParts(sep: string, parts: seq<string>)
    ensures forall k | 0 <= k < |parts| :: Contains(Join(sep, parts), parts[k])
    decreases |parts|
  {
    if |parts| > 1 {
      var rest := Join(sep, parts[1..]);
      JoinContainsParts(sep, parts[1..]);
      var r := parts[0] + sep + rest;
      ContainsConcat(parts[0] + sep, rest);
      ContainsConcat(parts[0], sep);
      ContainsTrans(r, parts[0] + sep, parts[0]);
      forall k | 1 <= k < |parts| ensures Contains(r, parts[k]) {
        assert parts[k] == parts[1..][k - 1];
        ContainsTrans(r, rest, parts[k]);
      }
    } else if |parts| == 1 {
      assert OccursAt(parts[0], parts[0], 0);
    }
  }

  /** A character absent from a text is absent from each of its substrings. */
  lemma ContainsMissingChar(s: string, pat: string, c: char)
    requires Contains(s, pat) && c !in s
    ensures c !in pat
  {
    var i :| 0 <= i <= |s| && OccursAt(s, pat, i);
    assert forall m | 0 <= m < |pat| :: pat[m] == s[i + m];
  }

  // ---------------------------------------------------------------------------
  // Facts about SplitOn

  /** The first separator in `a + [sep] + b` is the one right after `a` when `a` has none. */
  lemma {:induction false} FirstIndexAfter(a: string, sep: char, b: string)
    requires sep !in a
    ensures sep in a + [sep] + b
    ensures FirstIndex(a + [sep] + b, sep) == |a|
    decreases |a|
  {
    var s := a + [sep] + b;
    assert s[|a|] == sep;
    if |a| > 0 {
      assert s[1..] == a[1..] + [sep] + b;
      FirstIndexAfter(a[1..], sep, b);
    }
  }

  /** Splitting at the first separator peels off the piece before it. */
  lemma SplitOnFirst(a: string, sep: char, b: string)
    requires sep !in a
    ensures SplitOn(a + [sep] + b, sep) == [a] + SplitOn(b, sep)
  {
    var s := a + [sep] + b;
    FirstIndexAfter(a, sep, b);
    assert s[..|a|] == a;
    assert s[|a| + 1..] == b;
  }

  /** Splitting a joined list on the separator gives the list back, provided no part
      contains the separator. */
  lemma {:induction false} SplitOfJoin(parts: seq<string>, sep: char)
    requires |parts| > 0
    requires forall k | 0 <= k < |parts| :: sep !in parts[k]
    ensures SplitOn(Join([sep], parts), sep) == parts
    decreases |parts|
  {
    if |parts| > 1 {
      var rest := Join([sep], parts[1..]);
      assert Join([sep], parts) == parts[0] + [sep] + rest;
      SplitOnFirst(parts[0], sep, rest);
      SplitOfJoin(parts[1..], sep);
      assert parts == [parts[0]] + parts[1..];
    }
  }
}
