/** The JavaScript string operations that the page extractor is built from:
    `trim`, regular-expression replacement of whitespace runs (`cleanText`),
    first-occurrence `replace`, `includes`, `endsWith`, `split`/`join` on one
    character and ASCII `toUpperCase`. */
module Text {
  import opened Optional

  /** The characters that `trim()` removes and `\s` matches: the ECMAScript
      WhiteSpace and LineTerminator code points. */
  predicate IsSpace(c: char)
  {
    var n := c as int;
    (9 <= n <= 13) || n == 32 || n == 0xA0 || n == 0x1680 || (0x2000 <= n <= 0x200A)
    || n == 0x2028 || n == 0x2029 || n == 0x202F || n == 0x205F || n == 0x3000 || n == 0xFEFF
  }

  /** The characters `\n` matches. */
  predicate IsNewline(c: char)
  {
    c == '\n'
  }

  /** `s` without its longest prefix of characters satisfying `p`. */
  function DropWhile(s: string, p: char -> bool): (r: string)
    ensures |r| <= |s|
    decreases |s|
  {
    if s != [] && p(s[0]) then DropWhile(s[1..], p) else s
  }

  /** `DropWhile` removes a prefix of `p` characters and stops at the first other one. */
  lemma {:induction false} DropWhileShape(s: string, p: char -> bool)
    ensures var r := DropWhile(s, p);
      && r == s[|s| - |r|..]
      && (forall i :: 0 <= i < |s| - |r| ==> p(s[i]))
      && (r != [] ==> !p(r[0]))
    decreases |s|
  {
    if s != [] && p(s[0]) {
      DropWhileShape(s[1..], p);
      var r := DropWhile(s, p);
      forall i | 0 <= i < |s| - |r| ensures p(s[i]) {
        if i > 0 { assert s[i] == s[1..][i - 1]; }
      }
    }
  }

  /** `s` without its longest suffix of whitespace. */
  function TrimEnd(s: string): string
    decreases |s|
  {
    if s != [] && IsSpace(s[|s| - 1]) then TrimEnd(s[..|s| - 1]) else s
  }

  /** `TrimEnd` removes a suffix of whitespace and stops at the last other character. */
  lemma {:induction false} TrimEndShape(s: string)
    ensures var r := TrimEnd(s);
      && |r| <= |s| && r == s[..|r|]
      && (forall i :: |r| <= i < |s| ==> IsSpace(s[i]))
      && (r != [] ==> !IsSpace(r[|r| - 1]))
    decreases |s|
  {
    if s != [] && IsSpace(s[|s| - 1]) {
      TrimEndShape(s[..|s| - 1]);
      var r := TrimEnd(s);
      forall i | |r| <= i < |s| ensures IsSpace(s[i]) {
        if i < |s| - 1 { assert s[i] == s[..|s| - 1][i]; }
      }
    }
  }

  /** `s.trim()` */
  function Trim(s: string): string
  {
    TrimEnd(DropWhile(s, IsSpace))
  }

  /** A trimmed string neither starts nor ends with whitespace. */
  lemma TrimEnds(s: string)
    ensures var r := Trim(s);
      r != [] ==> !IsSpace(r[0]) && !IsSpace(r[|r| - 1])
  {
    var d := DropWhile(s, IsSpace);
    DropWhileShape(s, IsSpace);
    TrimEndShape(d);
  }

  /** `s.replace(/x+/g, ' ')` where `x` is the character class `p`: every
      maximal run of characters satisfying `p` becomes one space. */
  function CollapseRuns(s: string, p: char -> bool): string
    decreases |s|
  {
    if s == [] then []
    else if p(s[0]) then [' '] + CollapseRuns(DropWhile(s[1..], p), p)
    else [s[0]] + CollapseRuns(s[1..], p)
  }

  /** JavaScript truthiness of a possibly absent string. */
  predicate Truthy(s: Option<string>)
  {
    s.Some? && s.value != []
  }

  /** `cleanText`: `null` for a falsy argument (absent or empty), otherwise
      `text.trim().replace(/\s+/g, ' ').replace(/\n+/g, ' ')`. */
  function CleanText(text: Option<string>): (r: Option<string>)
    ensures r.None? <==> text.None? || text.value == []
  {
    if text.None? || text.value == [] then None
    else Some(CollapseRuns(CollapseRuns(Trim(text.value), IsSpace), IsNewline))
  }

  /** No whitespace at either end, and every whitespace character is a plain
      space followed by a character that is not whitespace. */
  predicate Normalized(s: string)
  {
    forall i :: 0 <= i < |s| && IsSpace(s[i]) ==> s[i] == ' ' && 0 < i < |s| - 1 && !IsSpace(s[i + 1])
  }

  /** Every whitespace character is a plain space and none is followed by whitespace. */
  predicate SingleSpaced(s: string)
  {
    forall i :: 0 <= i < |s| && IsSpace(s[i]) ==> s[i] == ' ' && (i + 1 < |s| ==> !IsSpace(s[i + 1]))
  }

  /** The characters of `s` that are not whitespace, in order. */
  function NonSpace(s: string): string
    decreases |s|
  {
    if s == [] then []
    else (if IsSpace(s[0]) then [] else [s[0]]) + NonSpace(s[1..])
  }

  lemma {:induction false} NonSpaceAppend(a: string, b: string)
    ensures NonSpace(a + b) == NonSpace(a) + NonSpace(b)
    decreases |a|
  {
    if a == [] {
      assert a + b == b;
    } else {
      assert (a + b)[1..] == a[1..] + b;
      NonSpaceAppend(a[1..], b);
    }
  }

  lemma SingleSpacedCons(c: char, t: string)
    requires SingleSpaced(t)
    requires IsSpace(c) ==> c == ' ' && (t != [] ==> !IsSpace(t[0]))
    ensures SingleSpaced([c] + t)
  {
    var s := [c] + t;
    forall i | 0 <= i < |s| && IsSpace(s[i])
      ensures s[i] == ' ' && (i + 1 < |s| ==> !IsSpace(s[i + 1]))
    {
      if i > 0 {
        assert s[i] == t[i - 1];
        if i + 1 < |s| { assert s[i + 1] == t[i]; }
      }
    }
  }

  /** Collapsing keeps the string empty or not, and keeps whether its first
      character is whitespace. */
  lemma CollapseFirst(s: string)
    ensures var r := CollapseRuns(s, IsSpace);
      && (r == [] <==> s == [])
      && (r != [] ==> (IsSpace(r[0]) <==> IsSpace(s[0])))
  {
  }

  /** Collapsing keeps whether the last character is whitespace. */
  lemma {:induction false} CollapseLast(s: string)
    requires s != []
    ensures var r := CollapseRuns(s, IsSpace);
      r != [] && (IsSpace(r[|r| - 1]) <==> IsSpace(s[|s| - 1]))
    decreases |s|
  {
    if IsSpace(s[0]) {
      var t := DropWhile(s[1..], IsSpace);
      DropWhileShape(s[1..], IsSpace);
      var c := CollapseRuns(t, IsSpace);
      assert CollapseRuns(s, IsSpace) == [' '] + c;
      if t == [] {
        assert IsSpace(s[|s| - 1]) by {
          if |s| > 1 { assert s[|s| - 1] == s[1..][|s| - 2]; }
        }
      } else {
        CollapseLast(t);
        assert t[|t| - 1] == s[|s| - 1];
        assert ([' '] + c)[|c|] == c[|c| - 1];
      }
    } else if |s| > 1 {
      CollapseLast(s[1..]);
      var c := CollapseRuns(s[1..], IsSpace);
      assert CollapseRuns(s, IsSpace) == [s[0]] + c;
      assert ([s[0]] + c)[|c|] == c[|c| - 1];
      assert s[1..][|s| - 2] == s[|s| - 1];
    }
  }

  /** Collapsing whitespace runs leaves every whitespace character a single plain space. */
  lemma {:induction false} CollapseSingleSpacedResult(s: string)
    ensures SingleSpaced(CollapseRuns(s, IsSpace))
    decreases |s|
  {
    if s == [] {
    } else if IsSpace(s[0]) {
      var t := DropWhile(s[1..], IsSpace);
      DropWhileShape(s[1..], IsSpace);
      CollapseSingleSpacedResult(t);
      CollapseFirst(t);
      SingleSpacedCons(' ', CollapseRuns(t, IsSpace));
    } else {
      CollapseSingleSpacedResult(s[1..]);
      SingleSpacedCons(s[0], CollapseRuns(s[1..], IsSpace));
    }
  }

  /** Collapsing runs of `p` changes nothing in a string without `p` characters. */
  lemma {:induction false} CollapseNoRun(s: string, p: char -> bool)
    requires forall i :: 0 <= i < |s| ==> !p(s[i])
    ensures CollapseRuns(s, p) == s
    decreases |s|
  {
    if s != [] {
      CollapseNoRun(s[1..], p);
    }
  }

  /** Collapsing whitespace runs changes nothing in a single-spaced string. */
  lemma {:induction false} CollapseSingleSpaced(s: string)
    requires SingleSpaced(s)
    ensures CollapseRuns(s, IsSpace) == s
    decreases |s|
  {
    if s != [] {
      assert SingleSpaced(s[1..]);
      if IsSpace(s[0]) {
        assert DropWhile(s[1..], IsSpace) == s[1..];
      }
      CollapseSingleSpaced(s[1..]);
    }
  }

  /** Collapsing runs keeps every non-whitespace character, in order. */
  lemma {:induction false} CollapseKeepsContent(s: string)
    ensures NonSpace(CollapseRuns(s, IsSpace)) == NonSpace(s)
    decreases |s|
  {
    if s != [] {
      if IsSpace(s[0]) {
        var t := DropWhile(s[1..], IsSpace);
        CollapseKeepsContent(t);
        DropKeepsContent(s[1..]);
        NonSpaceAppend([' '], CollapseRuns(t, IsSpace));
      } else {
        CollapseKeepsContent(s[1..]);
        NonSpaceAppend([s[0]], CollapseRuns(s[1..], IsSpace));
      }
    }
  }

  lemma {:induction false} DropKeepsContent(s: string)
    ensures NonSpace(DropWhile(s, IsSpace)) == NonSpace(s)
    decreases |s|
  {
    if s != [] && IsSpace(s[0]) {
      DropKeepsContent(s[1..]);
    }
  }

  lemma {:induction false} TrimEndKeepsContent(s: string)
    ensures NonSpace(TrimEnd(s)) == NonSpace(s)
    decreases |s|
  {
    if s != [] && IsSpace(s[|s| - 1]) {
      var init := s[..|s| - 1];
      assert s == init + [s[|s| - 1]];
      NonSpaceAppend(init, [s[|s| - 1]]);
      TrimEndKeepsContent(init);
    }
  }

  /** A non-null result of `cleanText` is trimmed and single-spaced. */
  lemma CleanTextNormalized(text: Option<string>)
    requires CleanText(text).Some?
    ensures Normalized(CleanText(text).value)
  {
    var u := Trim(text.value);
    TrimEnds(text.value);
    CollapseFirst(u);
    if u != [] { CollapseLast(u); }
    CollapseSingleSpacedResult(u);
    var v := CollapseRuns(u, IsSpace);
    CollapseNoRun(v, IsNewline);
    assert CleanText(text).value == v;
  }

  /** A non-null result of `cleanText` holds exactly the non-whitespace
      characters of the input, in order. */
  lemma CleanTextKeepsContent(text: Option<string>)
    requires CleanText(text).Some?
    ensures NonSpace(CleanText(text).value) == NonSpace(text.value)
  {
    var u := Trim(text.value);
    var v := CollapseRuns(u, IsSpace);
    CollapseSingleSpacedResult(u);
    CollapseNoRun(v, IsNewline);
    assert CleanText(text).value == v;
    DropKeepsContent(text.value);
    TrimEndKeepsContent(DropWhile(text.value, IsSpace));
    CollapseKeepsContent(u);
  }

  /** The non-empty fixed points of `cleanText` are exactly the normalized strings. */
  lemma CleanTextFixpoint(s: string)
    requires s != []
    ensures CleanText(Some(s)) == Some(s) <==> Normalized(s)
  {
    if Normalized(s) {
      assert DropWhile(s, IsSpace) == s;
      assert TrimEnd(s) == s;
      assert SingleSpaced(s);
      CollapseSingleSpaced(s);
      CollapseNoRun(s, IsNewline);
    } else if CleanText(Some(s)) == Some(s) {
      CleanTextNormalized(Some(s));
    }
  }

  /** `cleanText` is idempotent on its non-empty results; a whitespace-only
      input gives `""`, which `cleanText` then maps to `null`. */
  lemma CleanTextIdempotent(text: Option<string>)
    requires CleanText(text).Some?
    ensures var v := CleanText(text).value;
      CleanText(Some(v)) == if v == [] then None else Some(v)
  {
    var v := CleanText(text).value;
    if v != [] {
      CleanTextNormalized(text);
      CleanTextFixpoint(v);
    }
  }

  /** A word: a non-empty string without whitespace. */
  predicate IsWord(w: string)
  {
    w != [] && forall i :: 0 <= i < |w| ==> !IsSpace(w[i])
  }

  /** The words of `s`: its maximal runs of non-whitespace characters, in order. */
  function Words(s: string): (ws: seq<string>)
    ensures forall k :: 0 <= k < |ws| ==> IsWord(ws[k])
    ensures s != [] && !IsSpace(s[0]) ==> ws != [] && ws[0] != [] && ws[0][0] == s[0]
    decreases |s|
  {
    if s == [] then []
    else if IsSpace(s[0]) then Words(s[1..])
    else
      var rest := Words(s[1..]);
      if s[1..] != [] && !IsSpace(s[1]) then
        var w := [s[0]] + rest[0];
        assert IsWord(w) by {
          assert IsWord(rest[0]);
          assert forall i :: 0 < i < |w| ==> w[i] == rest[0][i - 1];
        }
        [w] + rest[1..]
      else
        [[s[0]]] + rest
  }

  /** The words of a string that starts with a non-whitespace character `c`:
      `c` begins the first word of the rest when that starts with a word,
      and is a word of its own otherwise. */
  lemma WordsCons(c: char, t: string)
    requires !IsSpace(c)
    ensures Words([c] + t) ==
      if t != [] && !IsSpace(t[0]) then [[c] + Words(t)[0]] + Words(t)[1..] else [[c]] + Words(t)
  {
    assert ([c] + t)[1..] == t;
  }

  /** Leading whitespace does not change the words. */
  lemma {:induction false} WordsDrop(s: string)
    ensures Words(DropWhile(s, IsSpace)) == Words(s)
    decreases |s|
  {
    if s != [] && IsSpace(s[0]) {
      WordsDrop(s[1..]);
    }
  }

  /** A string of whitespace only has no words. */
  lemma {:induction false} WordsAllSpace(w: string)
    requires forall i :: 0 <= i < |w| ==> IsSpace(w[i])
    ensures Words(w) == []
    decreases |w|
  {
    if w != [] {
      WordsAllSpace(w[1..]);
    }
  }

  /** Trailing whitespace does not change the words. */
  lemma {:induction false} WordsAppendSpace(a: string, w: string)
    requires forall i :: 0 <= i < |w| ==> IsSpace(w[i])
    ensures Words(a + w) == Words(a)
    decreases |a|
  {
    if a == [] {
      assert a + w == w;
      WordsAllSpace(w);
    } else {
      assert (a + w)[1..] == a[1..] + w;
      WordsAppendSpace(a[1..], w);
      if !IsSpace(a[0]) && a[1..] == [] && w != [] {
        assert (a + w)[1] == w[0];
      }
    }
  }

  /** Trimming does not change the words. */
  lemma WordsTrim(s: string)
    ensures Words(Trim(s)) == Words(s)
  {
    var d := DropWhile(s, IsSpace);
    WordsDrop(s);
    TrimEndShape(d);
    var r := TrimEnd(d);
    assert d == r + d[|r|..];
    WordsAppendSpace(r, d[|r|..]);
  }

  /** Collapsing every whitespace run into one space does not change the words. */
  lemma {:induction false} WordsCollapse(s: string)
    ensures Words(CollapseRuns(s, IsSpace)) == Words(s)
    decreases |s|
  {
    if s != [] {
      if IsSpace(s[0]) {
        var t := DropWhile(s[1..], IsSpace);
        WordsCollapse(t);
        WordsDrop(s[1..]);
        assert ([' '] + CollapseRuns(t, IsSpace))[1..] == CollapseRuns(t, IsSpace);
      } else {
        WordsCollapse(s[1..]);
        CollapseFirst(s[1..]);
        WordsCons(s[0], CollapseRuns(s[1..], IsSpace));
        WordsCons(s[0], s[1..]);
        assert s == [s[0]] + s[1..];
      }
    }
  }

  /** Putting `c` in front of the first piece puts it in front of the joined string. */
  lemma JoinConsFirst(c: char, ws: seq<string>, sep: char)
    requires ws != []
    ensures Join([[c] + ws[0]] + ws[1..], sep) == [c] + Join(ws, sep)
  {
    var vs := [[c] + ws[0]] + ws[1..];
    assert vs[1..] == ws[1..];
  }

  /** A normalized string is its words joined by single spaces. */
  lemma {:induction false} NormalizedJoin(v: string)
    requires Normalized(v)
    ensures Join(Words(v), ' ') == v
    decreases |v|
  {
    if v != [] {
      var c, rest := v[0], v[1..];
      assert v == [c] + rest;
      assert !IsSpace(c);
      WordsCons(c, rest);
      if rest == [] {
      } else if IsSpace(rest[0]) {
        assert rest[0] == ' ' && |rest| > 1 && !IsSpace(rest[1]) by { assert rest[0] == v[1]; }
        var rest2 := rest[1..];
        assert Normalized(rest2) by {
          forall i | 0 <= i < |rest2| && IsSpace(rest2[i])
            ensures rest2[i] == ' ' && 0 < i < |rest2| - 1 && !IsSpace(rest2[i + 1])
          {
            assert rest2[i] == v[i + 2];
            if i + 1 < |rest2| { assert rest2[i + 1] == v[i + 3]; }
          }
        }
        NormalizedJoin(rest2);
        assert Words(rest) == Words(rest2) by { assert rest == [rest[0]] + rest2; }
        assert Words(v) == [[c]] + Words(rest2);
        assert ([[c]] + Words(rest2))[1..] == Words(rest2);
      } else {
        assert Normalized(rest) by {
          forall i | 0 <= i < |rest| && IsSpace(rest[i])
            ensures rest[i] == ' ' && 0 < i < |rest| - 1 && !IsSpace(rest[i + 1])
          {
            assert rest[i] == v[i + 1];
            if i + 1 < |rest| { assert rest[i + 1] == v[i + 2]; }
          }
        }
        NormalizedJoin(rest);
        JoinConsFirst(c, Words(rest), ' ');
      }
    }
  }

  /** A non-null result of `cleanText` is the words of the input, its maximal
      runs of non-whitespace characters, joined by single spaces. */
  lemma CleanTextWords(text: Option<string>)
    requires CleanText(text).Some?
    ensures CleanText(text).value == Join(Words(text.value), ' ')
  {
    var u := Trim(text.value);
    var v := CollapseRuns(u, IsSpace);
    CollapseSingleSpacedResult(u);
    CollapseNoRun(v, IsNewline);
    assert CleanText(text).value == v;
    CleanTextNormalized(text);
    NormalizedJoin(v);
    WordsCollapse(u);
    WordsTrim(text.value);
  }

  lemma SliceOfTail(s: string, j: nat, n: nat)
    requires |s| > 0 && j + 1 + n <= |s|
    ensures s[j + 1..j + 1 + n] == s[1..][j..j + n]
  {
    var a, b := s[j + 1..j + 1 + n], s[1..][j..j + n];
    forall k | 0 <= k < n ensures a[k] == b[k] {
      assert s[1..][j + k] == s[j + 1 + k];
    }
  }

  /** `pat` occurs in `s` starting at index `j`. */
  predicate OccursAt(s: string, pat: string, j: nat)
  {
    j + |pat| <= |s| && s[j..j + |pat|] == pat
  }

  /** The index of the first occurrence of `pat` in `s` (`s.indexOf(pat)`), or `None`. */
  function IndexOf(s: string, pat: string): (r: Option<nat>)
    ensures r.Some? ==> OccursAt(s, pat, r.value)
    ensures r.Some? ==> forall j: nat :: j < r.value ==> !OccursAt(s, pat, j)
    ensures r.None? ==> forall j: nat :: !OccursAt(s, pat, j)
    decreases |s|
  {
    if |s| < |pat| then None
    else if s[..|pat|] == pat then Some(0)
    else
      var rest := IndexOf(s[1..], pat);
      assert forall j: nat :: OccursAt(s, pat, j + 1) <==> OccursAt(s[1..], pat, j) by {
        forall j: nat ensures OccursAt(s, pat, j + 1) <==> OccursAt(s[1..], pat, j) {
          if j + 1 + |pat| <= |s| {
            SliceOfTail(s, j, |pat|);
          }
        }
      }
      assert !OccursAt(s, pat, 0);
      assert forall j: nat :: j > 0 ==> (OccursAt(s, pat, j) <==> OccursAt(s[1..], pat, j - 1)) by {
        forall j: nat | j > 0 ensures OccursAt(s, pat, j) <==> OccursAt(s[1..], pat, j - 1) {
          assert OccursAt(s, pat, (j - 1) + 1) <==> OccursAt(s[1..], pat, j - 1);
        }
      }
      if rest.None? then None else Some(rest.value + 1)
  }

  /** `s.includes(pat)` */
  predicate Contains(s: string, pat: string)
  {
    IndexOf(s, pat).Some?
  }

  /** `s.endsWith(suffix)`, as the attribute selector `[id$="suffix"]` tests it. */
  predicate EndsWith(s: string, suffix: string)
  {
    |suffix| <= |s| && s[|s| - |suffix|..] == suffix
  }

  /** `s.replace(pat, rep)` with a string pattern: only the first occurrence is replaced. */
  function ReplaceFirst(s: string, pat: string, rep: string): string
  {
    match IndexOf(s, pat)
    case None => s
    case Some(i) => s[..i] + rep + s[i + |pat|..]
  }

  /** `s.replace(/x/g, to)` for a single character `x`. */
  function ReplaceAll(s: string, from: char, to: char): (r: string)
    ensures |r| == |s|
  {
    seq(|s|, i requires 0 <= i < |s| => if s[i] == from then to else s[i])
  }

  /** `s.split(sep)`: the pieces between occurrences of `sep`; empty pieces are kept. */
  function Split(s: string, sep: char): (pieces: seq<string>)
    ensures |pieces| >= 1
    ensures forall k :: 0 <= k < |pieces| ==> sep !in pieces[k]
    decreases |s|
  {
    if s == [] then [[]]
    else
      var rest := Split(s[1..], sep);
      if s[0] == sep then [[]] + rest
      else [[s[0]] + rest[0]] + rest[1..]
  }

  /** `pieces.join(sep)` */
  function Join(pieces: seq<string>, sep: char): string
    decreases |pieces|
  {
    if pieces == [] then []
    else if |pieces| == 1 then pieces[0]
    else pieces[0] + [sep] + Join(pieces[1..], sep)
  }

  /** Joining the pieces of a split gives back the original string. */
  lemma {:induction false} JoinSplit(s: string, sep: char)
    ensures Join(Split(s, sep), sep) == s
    decreases |s|
  {
    if s != [] {
      var rest := Split(s[1..], sep);
      JoinSplit(s[1..], sep);
      if s[0] == sep {
        assert ([[]] + rest)[1..] == rest;
      } else if |rest| > 1 {
        var ps := [[s[0]] + rest[0]] + rest[1..];
        assert ps[1..] == rest[1..];
        assert Join(rest, sep) == rest[0] + [sep] + Join(rest[1..], sep);
      }
    }
  }

  /** ASCII `toUpperCase` of one character. */
  function ToUpper(c: char): char
  {
    if 'a' <= c <= 'z' then (c as int - 32) as char else c
  }

  /** `word.charAt(0).toUpperCase() + word.slice(1)` */
  function Capitalize(w: string): (r: string)
    ensures |r| == |w|
  {
    if w == [] then [] else [ToUpper(w[0])] + w[1..]
  }

  function CapitalizeAll(ws: seq<string>): (rs: seq<string>)
    ensures |rs| == |ws|
  {
    seq(|ws|, k requires 0 <= k < |ws| => Capitalize(ws[k]))
  }

  /** `s.split(' ').map(capitalize).join(' ')` */
  function TitleCase(s: string): string
  {
    Join(CapitalizeAll(Split(s, ' ')), ' ')
  }

  /** `t` is `s` with the first character and every character after a space
      upper-cased, and nothing else changed. */
  predicate CapitalizedWords(s: string, t: string)
  {
    && |t| == |s|
    && forall i :: 0 <= i < |s| ==> t[i] == if i == 0 || s[i - 1] == ' ' then ToUpper(s[i]) else s[i]
  }

  /** Capitalizing every space-free word of a space-joined list upper-cases
      exactly the characters at the start of the string or after a space. */
  lemma {:induction false} JoinCapitalizeAt(ws: seq<string>)
    requires forall k :: 0 <= k < |ws| ==> ' ' !in ws[k]
    ensures CapitalizedWords(Join(ws, ' '), Join(CapitalizeAll(ws), ' '))
    decreases |ws|
  {
    var j, jc := Join(ws, ' '), Join(CapitalizeAll(ws), ' ');
    if |ws| == 1 {
      assert j == ws[0] && jc == Capitalize(ws[0]);
      forall k | 0 <= k < |j| ensures j[k] != ' ' {
        assert j[k] in ws[0];
      }
    } else if |ws| > 1 {
      var w, tail := ws[0], ws[1..];
      assert CapitalizeAll(ws)[1..] == CapitalizeAll(tail);
      JoinCapitalizeAt(tail);
      var jt, jct := Join(tail, ' '), Join(CapitalizeAll(tail), ' ');
      assert j == w + [' '] + jt;
      assert jc == Capitalize(w) + [' '] + jct;
      forall i | 0 <= i < |j|
        ensures jc[i] == if i == 0 || j[i - 1] == ' ' then ToUpper(j[i]) else j[i]
      {
        if i < |w| {
          assert jc[i] == Capitalize(w)[i] && j[i] == w[i];
          if i > 0 { assert j[i - 1] == w[i - 1]; assert w[i - 1] in w; }
        } else if i == |w| {
          assert jc[i] == ' ' && j[i] == ' ';
        } else {
          var k := i - |w| - 1;
          assert jc[i] == jct[k] && j[i] == jt[k];
          if k > 0 { assert j[i - 1] == jt[k - 1]; }
        }
      }
      assert |jc| == |j|;
      assert CapitalizedWords(j, jc);
    }
  }

  /** `TitleCase` upper-cases the first character and every character that
      follows a space, and leaves every other character as it is. */
  lemma TitleCaseAt(s: string)
    ensures CapitalizedWords(s, TitleCase(s))
  {
    JoinSplit(s, ' ');
    JoinCapitalizeAt(Split(s, ' '));
  }
}
