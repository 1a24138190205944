/** The few operations of Python's `str` that the chatbot relies on, over Dafny
    strings: sequences of Unicode scalar values. A Python `str` can also hold
    lone surrogates, which a Dafny string cannot; text decoded from a web
    page or typed into a form holds none. */
module Text {

  function Min(a: int, b: int): (m: int)
    ensures m <= a && m <= b && (m == a || m == b)
  {
    if a <= b then a else b
  }

  /** `str.isspace()` on one character: the whitespace set that `strip()` and
      `split()` use. */
  predicate IsSpace(c: char)
  {
    ('\t' <= c <= '\r') || ('\U{1C}' <= c <= '\U{1F}') || c == ' '
    || c == '\U{85}' || c == '\U{A0}' || c == '\U{1680}'
    || ('\U{2000}' <= c <= '\U{200A}') || c == '\U{2028}' || c == '\U{2029}'
    || c == '\U{202F}' || c == '\U{205F}' || c == '\U{3000}'
  }

  predicate NoSpace(s: string)
  {
    forall i :: 0 <= i < |s| ==> !IsSpace(s[i])
  }

  predicate IsUpper(c: char)
  {
    'A' <= c <= 'Z'
  }

  /** `str.lower()` on one character, restricted to the ASCII letters. */
  function LowerChar(c: char): (d: char)
    ensures !IsUpper(d)
    ensures IsUpper(c) ==> d as int == c as int + 32
    ensures !IsUpper(c) ==> d == c
  {
    if IsUpper(c) then (c as int + 32) as char else c
  }

  /** `str.lower()`. */
  function Lower(s: string): (r: string)
    ensures |r| == |s|
    ensures forall i :: 0 <= i < |s| ==> r[i] == LowerChar(s[i])
  {
    seq(|s|, i requires 0 <= i < |s| => LowerChar(s[i]))
  }

  lemma LowerIdempotent(s: string)
    ensures Lower(Lower(s)) == Lower(s)
  {
  }

  /** `s.startswith(p)`. */
  predicate StartsWith(s: string, p: string)
  {
    |p| <= |s| && s[..|p|] == p
  }

  /** `s` starts with `p` exactly when `s` is `p` followed by something. */
  lemma StartsWithConcat(s: string, p: string)
    ensures StartsWith(s, p) <==> exists t :: s == p + t
  {
    if StartsWith(s, p) {
      assert s == p + s[|p|..];
    }
  }

  /** `needle` occurs in `hay` starting at offset `i`. */
  predicate OccursAt(needle: string, hay: string, i: int)
  {
    0 <= i <= |hay| - |needle| && hay[i..i + |needle|] == needle
  }

  predicate AllSpace(s: string)
  {
    forall k :: 0 <= k < |s| ==> IsSpace(s[k])
  }

  /** Python's `needle in hay` on strings: `needle` occurs contiguously in
      `hay` (the empty string occurs everywhere). */
  predicate IsSubstring(needle: string, hay: string)
    decreases |hay|
  {
    (|needle| <= |hay| && hay[..|needle|] == needle)
    || (hay != [] && IsSubstring(needle, hay[1..]))
  }

  /** Containment means an occurrence at some offset, and conversely. */
  lemma {:induction false} IsSubstringAt(needle: string, hay: string)
    ensures IsSubstring(needle, hay) <==> exists i :: OccursAt(needle, hay, i)
    decreases |hay|
  {
    if IsSubstring(needle, hay) {
      if |needle| <= |hay| && hay[..|needle|] == needle {
        assert OccursAt(needle, hay, 0);
      } else {
        IsSubstringAt(needle, hay[1..]);
        var j :| OccursAt(needle, hay[1..], j);
        assert hay[j + 1..j + 1 + |needle|] == hay[1..][j..j + |needle|];
        assert OccursAt(needle, hay, j + 1);
      }
    }
    if exists i :: OccursAt(needle, hay, i) {
      var i :| OccursAt(needle, hay, i);
      if i > 0 {
        assert hay[1..][i - 1..i - 1 + |needle|] == hay[i..i + |needle|];
        assert OccursAt(needle, hay[1..], i - 1);
        IsSubstringAt(needle, hay[1..]);
      }
    }
  }

  /** `sep.join(parts)`. */
  function Join(parts: seq<string>, sep: string): string
  {
    if |parts| == 0 then []
    else if |parts| == 1 then parts[0]
    else parts[0] + sep + Join(parts[1..], sep)
  }

  /** With a non-empty separator, joining gives the empty string exactly when
      there is nothing to join or the one part is empty. */
  lemma {:induction false} JoinEmpty(parts: seq<string>, sep: string)
    requires sep != []
    ensures Join(parts, sep) == [] <==> |parts| == 0 || (|parts| == 1 && parts[0] == [])
  {
    if |parts| > 1 {
      assert |Join(parts, sep)| >= |sep|;
    }
  }

  /** `s.split(sep)` for a one-character separator: the pieces between the
      occurrences of `sep`, empty pieces included; there is always one more
      piece than there are separators. */
  function SplitOn(s: string, sep: char): (parts: seq<string>)
    ensures |parts| >= 1
    decreases |s|
  {
    if s == [] then [[]]
    else
      var rest := SplitOn(s[1..], sep);
      if s[0] == sep then [[]] + rest
      else [[s[0]] + rest[0]] + rest[1..]
  }

  /** Joining the pieces back with the separator restores the string. */
  lemma {:induction false} JoinSplitOn(s: string, sep: char)
    ensures Join(SplitOn(s, sep), [sep]) == s
    decreases |s|
  {
    if s != [] {
      var rest := SplitOn(s[1..], sep);
      JoinSplitOn(s[1..], sep);
      if s[0] == sep {
        assert SplitOn(s, sep) == [[]] + rest;
        if |rest| == 1 {
          assert Join(rest, [sep]) == rest[0];
        }
        assert Join(SplitOn(s, sep), [sep]) == [] + [sep] + Join(rest, [sep]);
      } else {
        var parts := SplitOn(s, sep);
        assert parts == [[s[0]] + rest[0]] + rest[1..];
        if |rest| == 1 {
          assert Join(parts, [sep]) == [s[0]] + rest[0];
          assert Join(rest, [sep]) == rest[0];
        } else {
          assert parts[1..] == rest[1..];
          assert Join(parts, [sep]) == [s[0]] + rest[0] + [sep] + Join(rest[1..], [sep]);
          assert Join(rest, [sep]) == rest[0] + [sep] + Join(rest[1..], [sep]);
        }
      }
    }
  }

  /** No piece contains the separator. */
  lemma {:induction false} SplitOnPiecesFree(s: string, sep: char)
    ensures forall p :: p in SplitOn(s, sep) ==> sep !in p
    decreases |s|
  {
    if s != [] {
      SplitOnPiecesFree(s[1..], sep);
      var rest := SplitOn(s[1..], sep);
      if s[0] != sep {
        assert rest[0] in rest;
        forall p | p in SplitOn(s, sep) ensures sep !in p {
          if p != [s[0]] + rest[0] {
            assert p in rest;
          }
        }
      }
    }
  }

  lemma {:induction false} SplitOnPrefix(a: string, t: string, sep: char)
    requires sep !in a
    ensures SplitOn(a + t, sep) == [a + SplitOn(t, sep)[0]] + SplitOn(t, sep)[1..]
    decreases |a|
  {
    var ps := SplitOn(t, sep);
    if a == [] {
      assert a + t == t && a + ps[0] == ps[0];
      assert ps == [ps[0]] + ps[1..];
    } else {
      var u := a + t;
      assert u[0] == a[0] && a[0] != sep by {
        assert a[0] in a;
      }
      assert u[1..] == a[1..] + t;
      assert sep !in a[1..] by {
        assert forall k :: 0 <= k < |a| - 1 ==> a[1..][k] == a[k + 1];
      }
      SplitOnPrefix(a[1..], t, sep);
      var rest := SplitOn(u[1..], sep);
      assert SplitOn(u, sep) == [[u[0]] + rest[0]] + rest[1..];
      assert [a[0]] + (a[1..] + ps[0]) == a + ps[0];
    }
  }

  /** Splitting a join of separator-free pieces gives the pieces back. */
  lemma {:induction false} SplitOnJoin(parts: seq<string>, sep: char)
    requires |parts| >= 1
    requires forall p :: p in parts ==> sep !in p
    ensures SplitOn(Join(parts, [sep]), sep) == parts
    decreases |parts|
  {
    assert parts[0] in parts;
    if |parts| == 1 {
      SplitOnPrefix(parts[0], [], sep);
      assert parts[0] + [] == parts[0];
    } else {
      var tail := Join(parts[1..], [sep]);
      forall p | p in parts[1..] ensures sep !in p {
        assert p in parts;
      }
      SplitOnJoin(parts[1..], sep);
      assert Join(parts, [sep]) == parts[0] + ([sep] + tail);
      SplitOnPrefix(parts[0], [sep] + tail, sep);
      assert ([sep] + tail)[1..] == tail;
      assert SplitOn([sep] + tail, sep) == [[]] + parts[1..];
      assert parts[0] + [] == parts[0];
      assert parts == [parts[0]] + parts[1..];
    }
  }

  /** Leading characters removed by `lstrip()`. */
  function TrimStart(s: string): (r: string)
    ensures |r| <= |s| && r == s[|s| - |r|..]
    ensures forall k :: 0 <= k < |s| - |r| ==> IsSpace(s[k])
    ensures r == [] || !IsSpace(r[0])
    decreases |s|
  {
    if s != [] && IsSpace(s[0]) then TrimStart(s[1..]) else s
  }

  /** Trailing characters removed by `rstrip()`. */
  function TrimEnd(s: string): (r: string)
    ensures |r| <= |s| && r == s[..|r|]
    ensures forall k :: |r| <= k < |s| ==> IsSpace(s[k])
    ensures r == [] || !IsSpace(r[|r| - 1])
    decreases |s|
  {
    if s != [] && IsSpace(s[|s| - 1]) then TrimEnd(s[..|s| - 1]) else s
  }

  /** `str.strip()`: neither begins nor ends with whitespace. */
  function Strip(s: string): (r: string)
    ensures |r| <= |s|
    ensures r == [] || (!IsSpace(r[0]) && !IsSpace(r[|r| - 1]))
  {
    TrimEnd(TrimStart(s))
  }

  /** What `strip()` keeps is a contiguous slice of `s`, and all it removes
      is whitespace. */
  lemma StripSlice(s: string)
    ensures exists i :: OccursAt(Strip(s), s, i) && AllSpace(s[..i]) && AllSpace(s[i + |Strip(s)|..])
  {
    var t := TrimStart(s);
    var r := TrimEnd(t);
    TrimmedSlice(s, t, r);
    assert r == Strip(s);
    var i := |s| - |t|;
    assert OccursAt(r, s, i) && AllSpace(s[..i]) && AllSpace(s[i + |r|..]);
  }

  /** A prefix `r` of a suffix `t` of `s`, with only whitespace cut off either
      side, is a slice of `s` between whitespace. */
  lemma TrimmedSlice(s: string, t: string, r: string)
    requires |t| <= |s| && t == s[|s| - |t|..]
    requires |r| <= |t| && r == t[..|r|]
    requires forall k :: 0 <= k < |s| - |t| ==> IsSpace(s[k])
    requires forall k :: |r| <= k < |t| ==> IsSpace(t[k])
    ensures var i := |s| - |t|; OccursAt(r, s, i) && AllSpace(s[..i]) && AllSpace(s[i + |r|..])
  {
    var i := |s| - |t|;
    assert s[i..i + |r|] == r;
    var u := s[i + |r|..];
    forall k | 0 <= k < |u| ensures IsSpace(u[k]) {
      assert u[k] == t[|r| + k];
    }
  }

  lemma StripIdempotent(s: string)
    ensures Strip(Strip(s)) == Strip(s)
  {
    var r := Strip(s);
    assert TrimStart(r) == r;
    assert TrimEnd(r) == r;
  }

  /** Length of the leading run of non-whitespace characters. */
  function RunLength(s: string): (n: nat)
    ensures n <= |s|
    ensures forall k :: 0 <= k < n ==> !IsSpace(s[k])
    ensures n < |s| ==> IsSpace(s[n])
    decreases |s|
  {
    if s == [] || IsSpace(s[0]) then 0 else 1 + RunLength(s[1..])
  }

  /** `str.split()` with no argument: the maximal runs of non-whitespace
      characters, in order. */
  function Words(s: string): seq<string>
    decreases |s|
  {
    if s == [] then []
    else if IsSpace(s[0]) then Words(s[1..])
    else
      var n := RunLength(s);
      [s[..n]] + Words(s[n..])
  }

  /** Every word is non-empty and holds no whitespace. */
  lemma {:induction false} WordsAreWords(s: string)
    ensures forall w :: w in Words(s) ==> w != [] && NoSpace(w)
    decreases |s|
  {
    if s != [] {
      if IsSpace(s[0]) {
        WordsAreWords(s[1..]);
      } else {
        var n := RunLength(s);
        WordsAreWords(s[n..]);
        assert forall w :: w in Words(s) ==> w == s[..n] || w in Words(s[n..]);
      }
    }
  }

  lemma {:induction false} RunLengthOfWord(w: string, t: string)
    requires NoSpace(w)
    requires t == [] || IsSpace(t[0])
    ensures RunLength(w + t) == |w|
    decreases |w|
  {
    if w != [] {
      assert (w + t)[1..] == w[1..] + t;
      RunLengthOfWord(w[1..], t);
    } else {
      assert w + t == t;
    }
  }

  /** Splitting words joined by single spaces gives the words back. */
  lemma {:induction false} WordsOfJoin(ws: seq<string>)
    requires forall w :: w in ws ==> w != [] && NoSpace(w)
    ensures Words(Join(ws, " ")) == ws
    decreases |ws|
  {
    if |ws| > 0 {
      var w := ws[0];
      assert w in ws;
      var rest := if |ws| == 1 then [] else " " + Join(ws[1..], " ");
      assert Join(ws, " ") == w + rest;
      RunLengthOfWord(w, rest);
      assert (w + rest)[..|w|] == w;
      assert (w + rest)[|w|..] == rest;
      if |ws| > 1 {
        forall v | v in ws[1..] ensures v != [] && NoSpace(v) {
          assert v in ws;
        }
        WordsOfJoin(ws[1..]);
        assert rest[1..] == Join(ws[1..], " ");
      }
    }
  }

  /** A reference for `" ".join(s.split())`, character by character: runs of
      whitespace are dropped at the start, become one space between words and
      are dropped at the end. `gap` says whitespace was seen since the last
      kept character, `started` that some character was kept. */
  function SqueezeFrom(s: string, gap: bool, started: bool): string
    decreases |s|
  {
    if s == [] then []
    else if IsSpace(s[0]) then SqueezeFrom(s[1..], true, started)
    else (if gap && started then " " else []) + [s[0]] + SqueezeFrom(s[1..], false, true)
  }

  function Squeeze(s: string): string
  {
    SqueezeFrom(s, false, false)
  }

  /** A word is copied whole, after a space when one is owed. */
  lemma {:induction false} SqueezeWord(w: string, t: string, gap: bool, started: bool)
    requires w != [] && NoSpace(w)
    ensures SqueezeFrom(w + t, gap, started) == (if gap && started then " " else []) + w + SqueezeFrom(t, false, true)
    decreases |w|
  {
    var u := w + t;
    assert u[0] == w[0] && u[1..] == w[1..] + t;
    if |w| > 1 {
      SqueezeWord(w[1..], t, false, true);
      assert [w[0]] + w[1..] == w;
    } else {
      assert w[1..] + t == t && [w[0]] == w;
    }
  }

  /** What the reference produces from any state, in terms of the words. */
  lemma {:induction false} SqueezeFromWords(s: string, gap: bool, started: bool)
    ensures SqueezeFrom(s, gap, started) ==
              if Words(s) == [] then []
              else (if (gap || (s != [] && IsSpace(s[0]))) && started then " " else []) + Join(Words(s), " ")
    decreases |s|
  {
    if s != [] {
      if IsSpace(s[0]) {
        SqueezeFromWords(s[1..], true, started);
      } else {
        var n := RunLength(s);
        var w := s[..n];
        var t := s[n..];
        SqueezeFromWords(t, false, true);
        assert NoSpace(w);
        assert s == w + t;
        WordsAtWord(s);
        SqueezeWordStep(w, t, gap, started);
      }
    }
  }

  /** The step of `SqueezeFromWords` at a word `w`, given the claim for the
      rest `t`. */
  lemma SqueezeWordStep(w: string, t: string, gap: bool, started: bool)
    requires w != [] && NoSpace(w)
    requires SqueezeFrom(t, false, true) == if Words(t) == [] then [] else " " + Join(Words(t), " ")
    ensures SqueezeFrom(w + t, gap, started) ==
              (if gap && started then " " else []) + Join([w] + Words(t), " ")
  {
    var pre: string := if gap && started then " " else [];
    var rest := SqueezeFrom(t, false, true);
    var joined := Join([w] + Words(t), " ");
    assert w + rest == joined by { JoinRest(w, Words(t), rest); }
    assert pre + w + rest == pre + joined by { assert pre + w + rest == pre + (w + rest); }
    SqueezeWord(w, t, gap, started);
  }

  /** A word followed by the space-led join of the words after it is the join
      of them all. */
  lemma JoinRest(w: string, ws: seq<string>, rest: string)
    requires rest == if ws == [] then [] else " " + Join(ws, " ")
    ensures w + rest == Join([w] + ws, " ")
  {
    JoinCons(w, ws, " ");
    if ws != [] {
      assert w + (" " + Join(ws, " ")) == w + " " + Join(ws, " ");
    }
  }

  lemma WordsAtWord(s: string)
    requires s != [] && !IsSpace(s[0])
    ensures Words(s) == [s[..RunLength(s)]] + Words(s[RunLength(s)..])
  {
  }

  lemma JoinCons(w: string, ws: seq<string>, sep: string)
    ensures Join([w] + ws, sep) == if ws == [] then w else w + sep + Join(ws, sep)
  {
    assert ([w] + ws)[0] == w;
    if ws != [] {
      assert ([w] + ws)[1..] == ws;
    }
  }

  /** `" ".join(s.split())` trims `s` and turns each whitespace run inside it
      into one space, for every string. */
  lemma JoinWords(s: string)
    ensures Join(Words(s), " ") == Squeeze(s)
  {
    SqueezeFromWords(s, false, false);
  }
}
