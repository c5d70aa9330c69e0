/**
 The two Python `str` methods the upload-naming helper chains together:
 `replace` (over arbitrary code-point strings) and `title` (over ASCII text).
 */
module PyString {

  // ---------------------------------------------------------------------------
  // Substrings
  // ---------------------------------------------------------------------------

  /** `pat` occurs in `s` starting at index `i`. */
  predicate OccursAt(s: string, pat: string, i: int)
  {
    0 <= i && i + |pat| <= |s| && s[i..i + |pat|] == pat
  }

  /** `pat in s`, Python's substring test. */
  predicate Contains(s: string, pat: string)
  {
    exists i :: 0 <= i <= |s| && OccursAt(s, pat, i)
  }

  /** An occurrence in `s[1..]` is an occurrence in `s`, one index further on. */
  lemma OccursAtTail(s: string, pat: string, j: int)
    requires s != [] && 0 <= j
    ensures OccursAt(s[1..], pat, j) <==> OccursAt(s, pat, j + 1)
  {
    if j + |pat| <= |s| - 1 {
      assert s[1..][j..j + |pat|] == s[j + 1..j + 1 + |pat|];
    }
  }

  // ---------------------------------------------------------------------------
  // str.replace
  // ---------------------------------------------------------------------------

  /**
   `s.replace(pat, rep)`: scanning left to right, each occurrence of `pat` is
   replaced by `rep` and the scan resumes just after it, so occurrences never
   overlap and text produced by a replacement is never scanned again.
   */
  function Replace(s: string, pat: string, rep: string): (r: string)
    requires pat != []
    decreases |s|
  {
    if s == [] then []
    else if OccursAt(s, pat, 0) then rep + Replace(s[|pat|..], pat, rep)
    else [s[0]] + Replace(s[1..], pat, rep)
  }

  /**
   `s.count(pat)`: the number of occurrences the same left-to-right scan
   finds; each one takes at least one character of `s`.
   */
  function Count(s: string, pat: string): (n: nat)
    requires pat != []
    ensures n <= |s|
    decreases |s|
  {
    if s == [] then 0
    else if OccursAt(s, pat, 0) then 1 + Count(s[|pat|..], pat)
    else Count(s[1..], pat)
  }

  /** Without an occurrence of `pat`, `replace` returns its input unchanged. */
  lemma {:induction false} ReplaceAbsent(s: string, pat: string, rep: string)
    requires pat != [] && !Contains(s, pat)
    ensures Replace(s, pat, rep) == s
  {
    if s != [] {
      assert !OccursAt(s, pat, 0);
      forall j | OccursAt(s[1..], pat, j) ensures false {
        OccursAtTail(s, pat, j);
      }
      ReplaceAbsent(s[1..], pat, rep);
      assert [s[0]] + s[1..] == s;
    }
  }

  /**
   `replace` finds the leftmost occurrence `i` of `pat`, keeps everything before
   it, substitutes `rep`, and carries on with what follows the occurrence.
   */
  lemma {:induction false} ReplaceLeftmost(s: string, pat: string, rep: string, i: nat)
    requires pat != [] && OccursAt(s, pat, i)
    requires forall j :: 0 <= j < i ==> !OccursAt(s, pat, j)
    ensures Replace(s, pat, rep) == s[..i] + rep + Replace(s[i + |pat|..], pat, rep)
    decreases i
  {
    if i == 0 {
      assert s[..0] + rep == rep;
    } else {
      assert !OccursAt(s, pat, 0);
      NoEarlierInTail(s, pat, i);
      ReplaceLeftmost(s[1..], pat, rep, i - 1);
      ReplaceCons(s, pat, rep, i);
    }
  }

  /** One step of ReplaceLeftmost: the leftmost-occurrence split of `s[1..]` gives that of `s`. */
  lemma ReplaceCons(s: string, pat: string, rep: string, i: nat)
    requires pat != [] && 0 < i && i + |pat| <= |s| && !OccursAt(s, pat, 0)
    requires Replace(s[1..], pat, rep) == s[1..][..i - 1] + rep + Replace(s[1..][i - 1 + |pat|..], pat, rep)
    ensures Replace(s, pat, rep) == s[..i] + rep + Replace(s[i + |pat|..], pat, rep)
  {
    var tail := s[1..];
    var before := tail[..i - 1];
    var rest := Replace(s[i + |pat|..], pat, rep);
    TailPieces(s, i, |pat|);
    ReplaceSkip(s, pat, rep);
    ConcatAssoc([s[0]], before, rep, rest);
  }

  /** Regrouping a concatenation of four strings. */
  lemma ConcatAssoc(a: string, b: string, c: string, d: string)
    ensures a + (b + c + d) == (a + b) + c + d
  {
  }

  /** Cutting `s` at `i` and at `i + m`, seen from `s[1..]`. */
  lemma TailPieces(s: string, i: nat, m: nat)
    requires 0 < i && i + m <= |s|
    ensures [s[0]] + s[1..][..i - 1] == s[..i]
    ensures s[1..][i - 1 + m..] == s[i + m..]
  {
  }

  /** Where `pat` does not start `s`, `replace` keeps the first character. */
  lemma ReplaceSkip(s: string, pat: string, rep: string)
    requires pat != [] && s != [] && !OccursAt(s, pat, 0)
    ensures Replace(s, pat, rep) == [s[0]] + Replace(s[1..], pat, rep)
  {
  }

  /** Moving from `s` to `s[1..]` keeps "the leftmost occurrence is at `i`", one place earlier. */
  lemma NoEarlierInTail(s: string, pat: string, i: nat)
    requires 0 < i && OccursAt(s, pat, i)
    requires forall j :: 0 <= j < i ==> !OccursAt(s, pat, j)
    ensures OccursAt(s[1..], pat, i - 1)
    ensures forall j :: 0 <= j < i - 1 ==> !OccursAt(s[1..], pat, j)
  {
    OccursAtTail(s, pat, i - 1);
    forall j | 0 <= j < i - 1 ensures !OccursAt(s[1..], pat, j) {
      OccursAtTail(s, pat, j);
    }
  }

  /** A prefix holding no character that could start `pat` is copied unchanged. */
  lemma {:induction false} ReplaceAppendFree(a: string, b: string, pat: string, rep: string)
    requires pat != [] && pat[0] !in a
    ensures Replace(a + b, pat, rep) == a + Replace(b, pat, rep)
    decreases |a|
  {
    if a == [] {
      assert a + b == b;
    } else {
      var s := a + b;
      assert s[0] == a[0] && a[0] in a;
      assert !OccursAt(s, pat, 0) by {
        if |pat| <= |s| {
          assert s[0..|pat|][0] == s[0];
        }
      }
      ReplaceSkip(s, pat, rep);
      assert s[1..] == a[1..] + b;
      assert pat[0] !in a[1..] by {
        forall c | c in a[1..] ensures c in a {}
      }
      ReplaceAppendFree(a[1..], b, pat, rep);
      assert [a[0]] + a[1..] == a;
    }
  }

  /** A string holding no character that could start `pat` is left unchanged. */
  lemma ReplaceFree(s: string, pat: string, rep: string)
    requires pat != [] && pat[0] !in s
    ensures Replace(s, pat, rep) == s
  {
    ReplaceAppendFree(s, [], pat, rep);
    assert s + [] == s;
  }

  /** Each occurrence replaced changes the length by `|rep| - |pat|`. */
  lemma {:induction false} ReplaceLength(s: string, pat: string, rep: string)
    requires pat != []
    ensures |Replace(s, pat, rep)| == |s| + Count(s, pat) * (|rep| - |pat|)
    decreases |s|
  {
    if s == [] {
    } else if OccursAt(s, pat, 0) {
      var tail := s[|pat|..];
      ReplaceLength(tail, pat, rep);
      assert Replace(s, pat, rep) == rep + Replace(tail, pat, rep);
      assert Count(s, pat) == 1 + Count(tail, pat);
      OneMoreMatch(|s|, |tail|, |pat|, |rep|, Count(tail, pat));
    } else {
      ReplaceLength(s[1..], pat, rep);
    }
  }

  /** The length bookkeeping for one more match: `s` is `tail` after a `p`-character match. */
  lemma OneMoreMatch(lenS: int, lenTail: int, p: int, q: int, k: int)
    requires lenS == lenTail + p
    ensures q + (lenTail + k * (q - p)) == lenS + (1 + k) * (q - p)
  {
    assert (1 + k) * (q - p) == (q - p) + k * (q - p);
  }

  /** Replacing one character by one character is a position-by-position map. */
  lemma {:induction false} ReplaceCharAt(s: string, a: char, b: char)
    ensures |Replace(s, [a], [b])| == |s|
    ensures forall i :: 0 <= i < |s| ==>
      Replace(s, [a], [b])[i] == if s[i] == a then b else s[i]
    decreases |s|
  {
    if s != [] {
      assert OccursAt(s, [a], 0) <==> s[0] == a by {
        assert s[0..1] == [s[0]];
      }
      ReplaceCharAt(s[1..], a, b);
    }
  }

  /** A one-character replacement distributes over concatenation. */
  lemma {:induction false} ReplaceCharAppend(s: string, t: string, a: char, b: char)
    ensures Replace(s + t, [a], [b]) == Replace(s, [a], [b]) + Replace(t, [a], [b])
    decreases |s|
  {
    if s == [] {
      assert s + t == t;
    } else {
      var st := s + t;
      assert st[0] == s[0] && st[1..] == s[1..] + t;
      assert OccursAt(st, [a], 0) <==> OccursAt(s, [a], 0) by {
        assert st[0..1] == [s[0]] && s[0..1] == [s[0]];
      }
      ReplaceCharAppend(s[1..], t, a, b);
    }
  }

  // ---------------------------------------------------------------------------
  // ASCII letters
  // ---------------------------------------------------------------------------

  predicate IsAscii(s: string)
  {
    forall i :: 0 <= i < |s| ==> s[i] as int < 128
  }

  predicate IsUpper(c: char) { 'A' <= c <= 'Z' }

  predicate IsLower(c: char) { 'a' <= c <= 'z' }

  /** The ASCII characters Python counts as cased. */
  predicate IsLetter(c: char) { IsUpper(c) || IsLower(c) }

  function ToUpper(c: char): (u: char)
    ensures IsLetter(c) ==> IsUpper(u) && IsLetter(u)
    ensures !IsLetter(c) ==> u == c
  {
    if IsLower(c) then (c as int - 32) as char else c
  }

  function ToLower(c: char): (l: char)
    ensures IsLetter(c) ==> IsLower(l) && IsLetter(l)
    ensures !IsLetter(c) ==> l == c
  {
    if IsUpper(c) then (c as int + 32) as char else c
  }

  /** Two letters of the same case that agree ignoring case are the same letter. */
  lemma LetterDetermined(x: char, y: char)
    requires IsLetter(x) && IsLetter(y)
    requires ToLower(x) == ToLower(y) && (IsUpper(x) <==> IsUpper(y))
    ensures x == y
  {
  }

  /** Replacing with ASCII text keeps ASCII text ASCII. */
  lemma {:induction false} ReplaceKeepsAscii(s: string, pat: string, rep: string)
    requires pat != []
    ensures IsAscii(s) && IsAscii(rep) ==> IsAscii(Replace(s, pat, rep))
    decreases |s|
  {
    if s == [] {
    } else if OccursAt(s, pat, 0) {
      ReplaceKeepsAscii(s[|pat|..], pat, rep);
    } else {
      ReplaceKeepsAscii(s[1..], pat, rep);
    }
  }

  // ---------------------------------------------------------------------------
  // str.title
  // ---------------------------------------------------------------------------

  /**
   What title-casing makes of `t` for output `r`, stated on the output: the
   same length and the same characters ignoring case, every non-letter kept,
   and every letter of `r` upper-case exactly when it starts the string or
   follows a non-letter.
   */
  predicate TitleCased(t: string, r: string)
  {
    && |r| == |t|
    && (forall i :: 0 <= i < |t| ==> (IsLetter(r[i]) <==> IsLetter(t[i])))
    && (forall i :: 0 <= i < |t| && !IsLetter(t[i]) ==> r[i] == t[i])
    && (forall i :: 0 <= i < |t| ==> ToLower(r[i]) == ToLower(t[i]))
    && (forall i :: 0 <= i < |r| ==> CasedAt(r, i))
  }

  /** A letter at `i` is upper-case exactly when it starts `r` or follows a non-letter. */
  predicate CasedAt(r: string, i: nat)
    requires i < |r|
  {
    IsLetter(r[i]) ==> (IsUpper(r[i]) <==> (i == 0 || !IsLetter(r[i - 1])))
  }

  /** One step of `str.title`: a letter after a letter is lowered, any other letter raised. */
  function CaseAs(afterLetter: bool, c: char): char
  {
    if !IsLetter(c) then c else if afterLetter then ToLower(c) else ToUpper(c)
  }

  /** `str.title`'s scan, carrying whether the previous character was a letter. */
  function TitleFrom(afterLetter: bool, t: string): (r: string)
    ensures |r| == |t|
    decreases |t|
  {
    if t == [] then [] else [CaseAs(afterLetter, t[0])] + TitleFrom(IsLetter(t[0]), t[1..])
  }

  lemma {:induction false} TitleFromAt(afterLetter: bool, t: string, i: nat)
    requires i < |t|
    ensures TitleFrom(afterLetter, t)[i] == CaseAs(if i == 0 then afterLetter else IsLetter(t[i - 1]), t[i])
    decreases i
  {
    if i > 0 {
      TitleFromAt(IsLetter(t[0]), t[1..], i - 1);
    }
  }

  lemma TitleFromCased(t: string)
    ensures TitleCased(t, TitleFrom(false, t))
  {
    var r := TitleFrom(false, t);
    forall i | 0 <= i < |t|
      ensures IsLetter(r[i]) <==> IsLetter(t[i])
      ensures !IsLetter(t[i]) ==> r[i] == t[i]
      ensures ToLower(r[i]) == ToLower(t[i])
      ensures CasedAt(r, i)
    {
      TitleFromAt(false, t, i);
      if i > 0 {
        TitleFromAt(false, t, i - 1);
      }
    }
  }

  /** Title-casing a concatenation continues from the last character of the first part. */
  lemma {:induction false} TitleFromAppend(afterLetter: bool, a: string, b: string)
    ensures TitleFrom(afterLetter, a + b)
         == TitleFrom(afterLetter, a) + TitleFrom(if a == [] then afterLetter else IsLetter(a[|a| - 1]), b)
    decreases |a|
  {
    if a == [] {
      assert a + b == b;
    } else {
      assert (a + b)[0] == a[0] && (a + b)[1..] == a[1..] + b;
      TitleFromAppend(IsLetter(a[0]), a[1..], b);
      if |a| > 1 {
        assert a[1..][|a[1..]| - 1] == a[|a| - 1];
      }
    }
  }

  /** `t.title()` for ASCII `t`. */
  function Title(t: string): (r: string)
    requires IsAscii(t)
    ensures IsAscii(r)
  {
    TitleFromCased(t);
    TitleFrom(false, t)
  }

  /** `title()` upper-cases exactly the letters that start a word and lowers the rest. */
  lemma TitleIsTitleCased(t: string)
    requires IsAscii(t)
    ensures TitleCased(t, Title(t))
  {
    TitleFromCased(t);
  }

  /** `TitleCased` determines its output: it is a complete description of `title`. */
  lemma TitleCasedUnique(t: string, r1: string, r2: string)
    requires TitleCased(t, r1) && TitleCased(t, r2)
    ensures r1 == r2
  {
    forall i | 0 <= i < |t| ensures r1[i] == r2[i] {
      if IsLetter(t[i]) {
        if i > 0 {
          assert IsLetter(r1[i - 1]) <==> IsLetter(r2[i - 1]) by {
            assert IsLetter(r1[i - 1]) <==> IsLetter(t[i - 1]);
          }
        }
        assert CasedAt(r1, i) && CasedAt(r2, i);
        LetterDetermined(r1[i], r2[i]);
      }
    }
  }

  /** `r` is `t.title()` exactly when `r` is title-cased from `t`. */
  lemma TitleCharacterized(t: string, r: string)
    requires IsAscii(t)
    ensures r == Title(t) <==> TitleCased(t, r)
  {
    TitleIsTitleCased(t);
    if TitleCased(t, r) {
      TitleCasedUnique(t, r, Title(t));
    }
  }

  /** Title-casing twice is title-casing once. */
  lemma TitleIdempotent(t: string)
    requires IsAscii(t)
    ensures Title(Title(t)) == Title(t)
  {
    var r := Title(t);
    TitleIsTitleCased(t);
    TitleIsTitleCased(r);
    assert TitleCased(r, r);
    TitleCasedUnique(r, r, Title(r));
  }

  /** Title-cased text never holds a lower-case `.csv`: its `c` follows a `.`, so it is raised. */
  lemma TitleCasedHasNoCsv(t: string, r: string)
    requires TitleCased(t, r)
    ensures !Contains(r, ".csv")
  {
    forall i | 0 <= i && i + 4 <= |r| ensures !OccursAt(r, ".csv", i) {
      assert r[i..i + 4][0] == r[i] && r[i..i + 4][1] == r[i + 1];
      assert CasedAt(r, i + 1);
    }
  }
}
