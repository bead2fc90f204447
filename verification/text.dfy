/** The string operations the relevance filter and the context renderer
    rely on: `str.lower`, `str.split()` with no separator, the substring
    test `needle in hay`, `sep.join(parts)` and `s.split(c)`. */
module Text {

  /** The characters Python's `str.split()` treats as whitespace (those for
      which `str.isspace` holds). */
  predicate IsSpace(c: char)
  {
    || c == ' ' || c == '\t' || c == '\n' || c == '\r'
    || c == '\U{0B}' || c == '\U{0C}'
    || ('\U{1C}' <= c <= '\U{1F}')
    || c == '\U{85}' || c == '\U{A0}' || c == '\U{1680}'
    || ('\U{2000}' <= c <= '\U{200A}')
    || c == '\U{2028}' || c == '\U{2029}' || c == '\U{202F}' || c == '\U{205F}'
    || c == '\U{3000}'
  }

  /** A token `str.split()` can produce: non-empty, no whitespace in it. */
  predicate IsWord(w: string)
  {
    |w| > 0 && forall i :: 0 <= i < |w| ==> !IsSpace(w[i])
  }

  /** A run of whitespace only (possibly empty). */
  predicate AllSpace(g: string)
  {
    forall i :: 0 <= i < |g| ==> IsSpace(g[i])
  }

  // ---------------------------------------------------------------------------
  // Lower-casing

  predicate IsUpper(c: char) { 'A' <= c <= 'Z' }

  /** ASCII lower-casing of one character; every other character is kept. */
  function LowerChar(c: char): (d: char)
    ensures !IsUpper(d)
    ensures IsUpper(c) ==> d as int == c as int + 32
    ensures !IsUpper(c) ==> d == c
  {
    if IsUpper(c) then (c as int + 32) as char else c
  }

  /** `s.lower()`, restricted to ASCII letters. */
  function Lower(s: string): (r: string)
    ensures |r| == |s|
    ensures forall i :: 0 <= i < |s| ==> r[i] == LowerChar(s[i])
  {
    seq(|s|, i requires 0 <= i < |s| => LowerChar(s[i]))
  }

  /** Lower-casing moves no whitespace: a character is whitespace exactly
      when its lower-cased form is. */
  lemma LowerKeepsSpace(c: char)
    ensures IsSpace(LowerChar(c)) <==> IsSpace(c)
  {
  }

  // ---------------------------------------------------------------------------
  // Substring test

  /** `needle` occurs in `hay` starting at offset `i`. */
  predicate OccursAt(needle: string, hay: string, i: int)
  {
    0 <= i && i + |needle| <= |hay| && hay[i..i + |needle|] == needle
  }

  /** `needle` occurs in `hay` at some offset. */
  ghost predicate IsSubstring(needle: string, hay: string)
  {
    exists i :: OccursAt(needle, hay, i)
  }

  /** Python's `needle in hay`: a scan of the offsets of `hay` from the left. */
  function Contains(needle: string, hay: string): (r: bool)
    ensures r <==> IsSubstring(needle, hay)
    decreases |hay|
  {
    if needle <= hay then
      assert OccursAt(needle, hay, 0);
      true
    else if |hay| == 0 then false
    else
      var r := Contains(needle, hay[1..]);
      assert r ==> IsSubstring(needle, hay) by {
        if r {
          var i :| OccursAt(needle, hay[1..], i);
          assert hay[i + 1..i + 1 + |needle|] == hay[1..][i..i + |needle|];
          assert OccursAt(needle, hay, i + 1);
        }
      }
      assert IsSubstring(needle, hay) ==> r by {
        if IsSubstring(needle, hay) {
          var i :| OccursAt(needle, hay, i);
          if i > 0 {
            assert hay[1..][i - 1..i - 1 + |needle|] == hay[i..i + |needle|];
            assert OccursAt(needle, hay[1..], i - 1);
          }
        }
      }
      r
  }

  /** A needle holding a character the haystack lacks does not occur in it. */
  lemma MissingCharNotSubstring(needle: string, hay: string, c: char)
    requires c in needle && c !in hay
    ensures !IsSubstring(needle, hay)
  {
    var k :| 0 <= k < |needle| && needle[k] == c;
    forall i | 0 <= i && i + |needle| <= |hay|
      ensures !OccursAt(needle, hay, i)
    {
      assert hay[i + k] in hay;
      assert hay[i..i + |needle|][k] != needle[k];
    }
  }

  // ---------------------------------------------------------------------------
  // Whitespace splitting

  /** The length of the run of non-whitespace characters that starts `s`. */
  function WordLength(s: string): (n: nat)
    ensures n <= |s|
    ensures forall i :: 0 <= i < n ==> !IsSpace(s[i])
    ensures n < |s| ==> IsSpace(s[n])
  {
    if |s| == 0 || IsSpace(s[0]) then 0 else 1 + WordLength(s[1..])
  }

  /** `s.split()`: the maximal runs of non-whitespace characters, in order;
      runs of whitespace collapse and no empty token is produced. */
  function Split(s: string): (r: seq<string>)
    ensures forall j :: 0 <= j < |r| ==> IsWord(r[j])
    decreases |s|
  {
    if |s| == 0 then []
    else if IsSpace(s[0]) then Split(s[1..])
    else
      var n := WordLength(s);
      [s[..n]] + Split(s[n..])
  }

  /** `sep.join(parts)`. */
  function Join(parts: seq<string>, sep: string): (r: string)
  {
    if |parts| == 0 then ""
    else if |parts| == 1 then parts[0]
    else parts[0] + sep + Join(parts[1..], sep)
  }

  /** A non-empty join starts with its first part. */
  lemma JoinStartsWith(parts: seq<string>, sep: string)
    requires |parts| > 0
    ensures parts[0] <= Join(parts, sep)
  {
  }

  /** Every part followed by `sep`: the text a writer emitting "line, then
      separator" would produce. */
  function Terminated(parts: seq<string>, sep: string): (r: string)
  {
    if |parts| == 0 then "" else parts[0] + sep + Terminated(parts[1..], sep)
  }

  /** A join is the separator-terminated form without its final separator:
      separators go between parts, never after the last one. */
  lemma {:induction false} JoinTerminated(parts: seq<string>, sep: string)
    requires |parts| > 0
    ensures Join(parts, sep) + sep == Terminated(parts, sep)
  {
    if |parts| > 1 {
      JoinTerminated(parts[1..], sep);
      assert Join(parts, sep) + sep == parts[0] + sep + (Join(parts[1..], sep) + sep);
    }
  }

  /** Leading whitespace does not change the tokens. */
  lemma {:induction false} SplitSkipsSpace(g: string, s: string)
    requires AllSpace(g)
    ensures Split(g + s) == Split(s)
    decreases |g|
  {
    if |g| > 0 {
      assert (g + s)[1..] == g[1..] + s;
      SplitSkipsSpace(g[1..], s);
    } else {
      assert g + s == s;
    }
  }

  /** A word followed by whitespace is split off as one token. */
  lemma SplitWord(w: string, g: string, s: string)
    requires IsWord(w) && |g| > 0 && AllSpace(g)
    ensures Split(w + g + s) == [w] + Split(s)
  {
    var t := w + g + s;
    WordLengthOfWord(w, g + s);
    assert t == w + (g + s);
    assert t[..|w|] == w;
    assert t[|w|..] == g + s;
    SplitSkipsSpace(g, s);
  }

  lemma {:induction false} WordLengthOfWord(w: string, rest: string)
    requires forall i :: 0 <= i < |w| ==> !IsSpace(w[i])
    requires |rest| == 0 || IsSpace(rest[0])
    ensures WordLength(w + rest) == |w|
    decreases |w|
  {
    if |w| > 0 {
      assert (w + rest)[1..] == w[1..] + rest;
      WordLengthOfWord(w[1..], rest);
    } else {
      assert w + rest == rest;
    }
  }

  /** Words with one gap between each pair: `ws[0] + gaps[0] + ws[1] + ...`. */
  function Weave(ws: seq<string>, gaps: seq<string>): (r: string)
    requires |ws| == 0 || |gaps| == |ws| - 1
    ensures |ws| > 0 ==> ws[0] <= r
    decreases |ws|
  {
    if |ws| == 0 then ""
    else if |ws| == 1 then ws[0]
    else ws[0] + gaps[0] + Weave(ws[1..], gaps[1..])
  }

  /** Weaving with the same gap everywhere is joining with it. */
  lemma {:induction false} WeaveUniform(ws: seq<string>, sep: string)
    requires |ws| > 0
    ensures Weave(ws, seq(|ws| - 1, _ => sep)) == Join(ws, sep)
    decreases |ws|
  {
    if |ws| > 1 {
      WeaveUniform(ws[1..], sep);
      assert seq(|ws| - 1, _ => sep)[1..] == seq(|ws[1..]| - 1, _ => sep);
    }
  }

  /** Splitting recovers the words of any whitespace layout: words separated
      by non-empty whitespace gaps, each gap chosen freely, with any
      whitespace before and after, split back into exactly those words. */
  lemma {:induction false} SplitWeave(ws: seq<string>, gaps: seq<string>, lead: string, trail: string)
    requires |ws| == 0 || |gaps| == |ws| - 1
    requires forall j :: 0 <= j < |ws| ==> IsWord(ws[j])
    requires forall j :: 0 <= j < |gaps| ==> |gaps[j]| > 0 && AllSpace(gaps[j])
    requires AllSpace(lead) && AllSpace(trail)
    ensures Split(lead + Weave(ws, gaps) + trail) == ws
    decreases |ws|
  {
    SplitSkipsSpace(lead, Weave(ws, gaps) + trail);
    assert lead + Weave(ws, gaps) + trail == lead + (Weave(ws, gaps) + trail);
    if |ws| == 0 {
      assert Weave(ws, gaps) + trail == trail + "";
      SplitSkipsSpace(trail, "");
    } else if |ws| == 1 {
      if |trail| == 0 {
        assert Weave(ws, gaps) + trail == ws[0];
        WordLengthOfWord(ws[0], "");
        assert ws[0] + "" == ws[0];
        assert ws[0][..|ws[0]|] == ws[0];
      } else {
        SplitWord(ws[0], trail, "");
        assert Weave(ws, gaps) + trail == ws[0] + trail + "";
        SplitSkipsSpace(trail, "");
        assert trail + "" == trail;
      }
    } else {
      var rest := Weave(ws[1..], gaps[1..]) + trail;
      assert Weave(ws, gaps) + trail == ws[0] + gaps[0] + rest;
      SplitWord(ws[0], gaps[0], rest);
      SplitWeave(ws[1..], gaps[1..], "", trail);
      assert "" + Weave(ws[1..], gaps[1..]) + trail == rest;
      assert ws == [ws[0]] + ws[1..];
    }
  }

  /** `s` is the words `ws` woven with non-empty whitespace `gaps`, with
      whitespace `lead` before and `trail` after. */
  predicate IsLayout(s: string, ws: seq<string>, lead: string, gaps: seq<string>, trail: string)
  {
    && (|ws| == 0 || |gaps| == |ws| - 1)
    && (forall j :: 0 <= j < |gaps| ==> |gaps[j]| > 0 && AllSpace(gaps[j]))
    && AllSpace(lead) && AllSpace(trail)
    && s == lead + Weave(ws, gaps) + trail
  }

  /** Conversely, every string is laid out as its tokens woven with
      non-empty whitespace gaps, with whitespace before and after: the tokens
      are the maximal non-whitespace runs and nothing else of the string is
      lost. */
  lemma {:induction false} SplitDecomposes(s: string) returns (lead: string, gaps: seq<string>, trail: string)
    ensures IsLayout(s, Split(s), lead, gaps, trail)
    decreases |s|
  {
    if |s| == 0 {
      lead, gaps, trail := "", [], "";
    } else if IsSpace(s[0]) {
      var l, g, t := SplitDecomposes(s[1..]);
      lead, gaps, trail := LayoutAfterSpace(s, l, g, t);
    } else {
      var rest := s[WordLength(s)..];
      var l, g, t := SplitDecomposes(rest);
      lead, gaps, trail := LayoutAfterWord(s, l, g, t);
    }
  }

  lemma LayoutAfterSpace(s: string, l: string, g: seq<string>, t: string)
      returns (lead: string, gaps: seq<string>, trail: string)
    requires |s| > 0 && IsSpace(s[0])
    requires IsLayout(s[1..], Split(s[1..]), l, g, t)
    ensures IsLayout(s, Split(s), lead, gaps, trail)
  {
    lead, gaps, trail := [s[0]] + l, g, t;
    assert s == [s[0]] + s[1..];
  }

  lemma LayoutAfterWord(s: string, l: string, g: seq<string>, t: string)
      returns (lead: string, gaps: seq<string>, trail: string)
    requires |s| > 0 && !IsSpace(s[0])
    requires IsLayout(s[WordLength(s)..], Split(s[WordLength(s)..]), l, g, t)
    ensures IsLayout(s, Split(s), lead, gaps, trail)
  {
    var n := WordLength(s);
    var w, rest := s[..n], s[n..];
    assert s == w + rest;
    var tail := Split(rest);
    assert Split(s) == [w] + tail;
    if |tail| == 0 {
      lead, gaps, trail := "", [], rest;
      assert rest == l + t;
      assert Weave(Split(s), gaps) == w;
    } else {
      WeaveStartsWithWord(l, tail, g, t);
      lead, gaps, trail := "", [l] + g, t;
      WeaveCons(w, l, tail, g);
      assert s == w + l + Weave(tail, g) + t;
    }
  }

  /** Text woven from at least one word, with nothing before it, starts
      with a non-whitespace character. */
  lemma WeaveStartsWithWord(l: string, ws: seq<string>, g: seq<string>, t: string)
    requires |ws| > 0 && |g| == |ws| - 1 && IsWord(ws[0])
    ensures |l| == 0 ==> !IsSpace((l + Weave(ws, g) + t)[0])
  {
    if |l| == 0 {
      assert l + Weave(ws, g) + t == Weave(ws, g) + t;
      assert (Weave(ws, g) + t)[0] == ws[0][0];
    }
  }

  lemma WeaveCons(w: string, l: string, ws: seq<string>, g: seq<string>)
    requires |ws| > 0 && |g| == |ws| - 1
    ensures Weave([w] + ws, [l] + g) == w + l + Weave(ws, g)
  {
    assert ([w] + ws)[1..] == ws;
    assert ([l] + g)[1..] == g;
  }

  /** Lower-casing before splitting is the same as lower-casing each token. */
  lemma {:induction false} SplitLower(s: string)
    ensures Split(Lower(s)) == seq(|Split(s)|, j requires 0 <= j < |Split(s)| => Lower(Split(s)[j]))
    decreases |s|
  {
    var l := Lower(s);
    if |s| > 0 {
      if IsSpace(s[0]) {
        LowerKeepsSpace(s[0]);
        assert l[1..] == Lower(s[1..]);
        SplitLower(s[1..]);
      } else {
        LowerKeepsSpace(s[0]);
        var n := WordLength(s);
        LowerWordLength(s);
        assert l[..n] == Lower(s[..n]);
        assert l[n..] == Lower(s[n..]);
        SplitLower(s[n..]);
      }
    }
  }

  lemma {:induction false} LowerWordLength(s: string)
    ensures WordLength(Lower(s)) == WordLength(s)
    decreases |s|
  {
    if |s| > 0 {
      LowerKeepsSpace(s[0]);
      assert Lower(s)[1..] == Lower(s[1..]);
      LowerWordLength(s[1..]);
    }
  }

  // ---------------------------------------------------------------------------
  // Splitting on one separator character

  /** The position of the first `c` in `s`, or `|s|` when there is none. */
  function IndexOf(s: string, c: char): (i: nat)
    ensures i <= |s|
    ensures forall k :: 0 <= k < i ==> s[k] != c
    ensures i < |s| ==> s[i] == c
  {
    if |s| == 0 || s[0] == c then 0 else 1 + IndexOf(s[1..], c)
  }

  /** `s.split(c)` for a one-character separator: always at least one piece,
      and none of the pieces contains `c`. */
  function SplitOn(s: string, c: char): (r: seq<string>)
    ensures |r| >= 1
    ensures forall j :: 0 <= j < |r| ==> c !in r[j]
    decreases |s|
  {
    var i := IndexOf(s, c);
    if i == |s| then [s] else [s[..i]] + SplitOn(s[i + 1..], c)
  }

  /** Splitting on `c` undoes joining with `c` when no part contains `c`. */
  lemma {:induction false} SplitOnJoin(parts: seq<string>, c: char)
    requires |parts| > 0
    requires forall j :: 0 <= j < |parts| ==> c !in parts[j]
    ensures SplitOn(Join(parts, [c]), c) == parts
    decreases |parts|
  {
    if |parts| > 1 {
      SplitOnJoin(parts[1..], c);
      SplitOnPiece(parts[0], c, Join(parts[1..], [c]));
      assert parts == [parts[0]] + parts[1..];
    } else {
      SplitOnLast(parts[0], c);
    }
  }

  lemma SplitOnLast(p: string, c: char)
    requires c !in p
    ensures SplitOn(p, c) == [p]
  {
    NoSeparatorIndex(p, c, []);
    assert p + [] == p;
  }

  lemma SplitOnPiece(p: string, c: char, rest: string)
    requires c !in p
    ensures SplitOn(p + [c] + rest, c) == [p] + SplitOn(rest, c)
  {
    var s := p + [c] + rest;
    NoSeparatorIndex(p, c, [c] + rest);
    assert s == p + ([c] + rest);
    assert s[..|p|] == p;
    assert s[|p| + 1..] == rest;
  }

  lemma {:induction false} NoSeparatorIndex(p: string, c: char, rest: string)
    requires c !in p
    requires |rest| == 0 || rest[0] == c
    ensures IndexOf(p + rest, c) == |p|
    decreases |p|
  {
    if |p| > 0 {
      assert (p + rest)[0] == p[0];
      assert (p + rest)[1..] == p[1..] + rest;
      NoSeparatorIndex(p[1..], c, rest);
    } else {
      assert p + rest == rest;
    }
  }
}
