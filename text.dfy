/**
 * The string primitives the class-list helpers are built from, as PHP defines
 * them on byte strings (each `char` stands for one byte):
 *  - `strtolower`, which maps only 'A'..'Z' to 'a'..'z';
 *  - `trim` with its default character list (space, tab, line feed, carriage
 *    return, NUL, vertical tab);
 *  - `preg_split('/\s+/', s)`, where PCRE's `\s` is space, tab, line feed,
 *    vertical tab, form feed and carriage return, and empty leading or
 *    trailing pieces are kept;
 *  - `implode(' ', tokens)`.
 */
module Text {

  /** PCRE's `\s` class. */
  predicate IsSpace(c: char) {
    c == ' ' || c == '\t' || c == '\n' || c == '\U{0B}' || c == '\U{0C}' || c == '\r'
  }

  /** The characters PHP's `trim` strips by default (note: no form feed, but NUL). */
  predicate IsTrimChar(c: char) {
    c == ' ' || c == '\t' || c == '\n' || c == '\r' || c == '\0' || c == '\U{0B}'
  }

  predicate NoSpace(s: string) {
    forall i :: 0 <= i < |s| ==> !IsSpace(s[i])
  }

  predicate IsUpper(c: char) {
    'A' <= c <= 'Z'
  }

  predicate AllLower(s: string) {
    forall i :: 0 <= i < |s| ==> !IsUpper(s[i])
  }

  function LowerChar(c: char): (r: char)
    ensures !IsUpper(r)
  {
    if IsUpper(c) then (c as int + 32) as char else c
  }

  /** PHP's `strtolower`. */
  function Lower(s: string): (r: string)
    ensures |r| == |s| && AllLower(r)
  {
    seq(|s|, i requires 0 <= i < |s| => LowerChar(s[i]))
  }

  /** Lowercasing changes nothing exactly on strings without capitals. */
  lemma {:induction false} LowerFixed(s: string)
    ensures Lower(s) == s <==> AllLower(s)
  {
    if AllLower(s) {
      assert forall i :: 0 <= i < |s| ==> Lower(s)[i] == s[i];
    }
  }

  /** Lowercasing leaves whitespace where it was. */
  lemma {:induction false} LowerKeepsSpace(s: string)
    ensures forall i :: 0 <= i < |s| ==> (IsSpace(Lower(s)[i]) <==> IsSpace(s[i]))
  {
  }

  lemma {:induction false} LowerSlices(s: string)
    requires |s| > 0
    ensures Lower(s)[1..] == Lower(s[1..])
    ensures Lower(s)[..|s| - 1] == Lower(s[..|s| - 1])
  {
  }

  /** PHP's `ltrim` with the default character list. */
  function TrimLeft(s: string): (r: string)
    ensures |r| <= |s| && r == s[|s| - |r|..]
    ensures forall i :: 0 <= i < |s| - |r| ==> IsTrimChar(s[i])
    ensures r == [] || !IsTrimChar(r[0])
  {
    if |s| > 0 && IsTrimChar(s[0]) then TrimLeft(s[1..]) else s
  }

  /** PHP's `rtrim` with the default character list. */
  function TrimRight(s: string): (r: string)
    ensures |r| <= |s| && r == s[..|r|]
    ensures forall i :: |r| <= i < |s| ==> IsTrimChar(s[i])
    ensures r == [] || !IsTrimChar(r[|r| - 1])
  {
    if |s| > 0 && IsTrimChar(s[|s| - 1]) then TrimRight(s[..|s| - 1]) else s
  }

  /** PHP's `trim`: the longest infix with no trim character at either end. */
  function Trim(s: string): (r: string)
    ensures exists i, j ::
              (0 <= i <= j <= |s| && r == s[i..j]
               && (forall k :: 0 <= k < i ==> IsTrimChar(s[k]))
               && (forall k :: j <= k < |s| ==> IsTrimChar(s[k])))
    ensures r == [] || (!IsTrimChar(r[0]) && !IsTrimChar(r[|r| - 1]))
  {
    var l := TrimLeft(s);
    var r := TrimRight(l);
    var i := |s| - |l|;
    assert r == s[i..i + |r|];
    r
  }

  lemma {:induction false} LowerTrimLeft(s: string)
    ensures Lower(TrimLeft(s)) == TrimLeft(Lower(s))
  {
    if |s| > 0 && IsTrimChar(s[0]) {
      LowerSlices(s);
      LowerTrimLeft(s[1..]);
    }
  }

  lemma {:induction false} LowerTrimRight(s: string)
    ensures Lower(TrimRight(s)) == TrimRight(Lower(s))
  {
    if |s| > 0 && IsTrimChar(s[|s| - 1]) {
      LowerSlices(s);
      LowerTrimRight(s[..|s| - 1]);
    }
  }

  /** Trimming and lowercasing commute: no trim character is a letter. */
  lemma {:induction false} LowerTrim(s: string)
    ensures Lower(Trim(s)) == Trim(Lower(s))
  {
    LowerTrimLeft(s);
    LowerTrimRight(TrimLeft(s));
  }

  /**
   * The shape of every result of Split: at least one token, no token holds
   * whitespace, and only the first and the last token may be empty.
   */
  predicate WellSplit(ts: seq<string>) {
    |ts| >= 1
    && (forall i :: 0 <= i < |ts| ==> NoSpace(ts[i]))
    && (forall i :: 0 < i < |ts| - 1 ==> ts[i] != "")
  }

  /**
   * `preg_split('/\s+/', s)`, one character at a time: a non-space character
   * joins the first piece; a whitespace character followed by more whitespace
   * belongs to the same run; any other whitespace character ends a run and
   * opens a new (so far empty) first piece. Empty pieces at either end are kept.
   */
  function Split(s: string): (r: seq<string>)
    ensures WellSplit(r)
    ensures |s| > 0 && !IsSpace(s[0]) ==> r[0] != ""
    ensures |s| > 0 && IsSpace(s[0]) ==> r[0] == "" && |r| >= 2
    ensures |r| == 1 ==> r[0] == s
  {
    if s == [] then [""]
    else
      var r := Split(s[1..]);
      if !IsSpace(s[0]) then
        WellSplitExtend(s[0], r);
        assert [s[0]] + s[1..] == s;
        [[s[0]] + r[0]] + r[1..]
      else if |s| > 1 && IsSpace(s[1]) then r
      else
        WellSplitCons("", r);
        [""] + r
  }

  /** Putting a non-space character in front of the first token keeps the shape. */
  lemma {:induction false} WellSplitExtend(c: char, ts: seq<string>)
    requires !IsSpace(c) && WellSplit(ts)
    ensures WellSplit([[c] + ts[0]] + ts[1..])
  {
    var r := [[c] + ts[0]] + ts[1..];
    assert NoSpace(r[0]) by {
      forall k | 0 <= k < |r[0]| ensures !IsSpace(r[0][k]) {
        if k > 0 {
          assert r[0][k] == ts[0][k - 1];
        }
      }
    }
    forall i | 0 < i < |r| ensures r[i] == ts[i] {
    }
  }

  /** A new first token in front of a token list whose first token is not an empty interior one. */
  lemma {:induction false} WellSplitCons(w: string, ts: seq<string>)
    requires NoSpace(w) && WellSplit(ts) && (|ts| >= 2 ==> ts[0] != "")
    ensures WellSplit([w] + ts)
  {
    var r := [w] + ts;
    forall i | 0 < i < |r| ensures r[i] == ts[i - 1] {
    }
  }

  /** Tokens of a lowercase string are lowercase. */
  lemma {:induction false} SplitLower(s: string)
    requires AllLower(s)
    ensures forall i :: 0 <= i < |Split(s)| ==> AllLower(Split(s)[i])
  {
    if s != [] {
      var t := s[1..];
      assert AllLower(t) by {
        forall k | 0 <= k < |t| ensures !IsUpper(t[k]) {
          assert t[k] == s[k + 1];
        }
      }
      SplitLower(t);
      var r := Split(t);
      if !IsSpace(s[0]) {
        var h := [s[0]] + r[0];
        assert AllLower(h) by {
          forall k | 0 <= k < |h| ensures !IsUpper(h[k]) {
            if k > 0 {
              assert h[k] == r[0][k - 1];
            }
          }
        }
        assert Split(s) == [h] + r[1..];
        forall i | 0 < i < |Split(s)| ensures AllLower(Split(s)[i]) {
          assert Split(s)[i] == r[i];
        }
      } else if !(|s| > 1 && IsSpace(s[1])) {
        assert Split(s) == [""] + r;
        forall i | 0 < i < |Split(s)| ensures AllLower(Split(s)[i]) {
          assert Split(s)[i] == r[i - 1];
        }
      }
    }
  }

  /** The last token is empty exactly when the string is empty or ends in whitespace. */
  lemma {:induction false} SplitLast(s: string)
    ensures Split(s)[|Split(s)| - 1] == "" <==> (s == "" || IsSpace(s[|s| - 1]))
  {
    if s != [] {
      var t := s[1..];
      SplitLast(t);
      var r := Split(t);
      if t == [] {
        assert s == [s[0]];
      } else {
        assert t[|t| - 1] == s[|s| - 1];
        if !IsSpace(s[0]) && |r| == 1 {
          var k := |t| - 1;
          assert !IsSpace(r[0][k]);
        }
      }
    }
  }

  /**
   * Growing a token list by nonempty whitespace-free tokens keeps Split's shape,
   * provided its last old token is not an empty one left by trailing whitespace.
   */
  lemma {:induction false} WellSplitGrow(ts: seq<string>, r: seq<string>)
    requires ts == [] || WellSplit(ts)
    requires |ts| <= 1 || ts[|ts| - 1] != ""
    requires |r| >= |ts| && r[..|ts|] == ts && r != []
    requires forall p :: |ts| <= p < |r| ==> r[p] != "" && NoSpace(r[p])
    ensures WellSplit(r)
  {
    forall i | 0 <= i < |ts| ensures r[i] == ts[i] {
      assert r[..|ts|][i] == r[i];
    }
  }

  /** `implode(' ', ts)`. */
  function Join(ts: seq<string>): string {
    if |ts| == 0 then ""
    else if |ts| == 1 then ts[0]
    else ts[0] + " " + Join(ts[1..])
  }

  /**
   * Reference definition: every maximal run of whitespace replaced by one
   * space, everything else kept.
   */
  function Collapse(s: string): string {
    if s == [] then ""
    else if !IsSpace(s[0]) then [s[0]] + Collapse(s[1..])
    else if |s| > 1 && IsSpace(s[1]) then Collapse(s[1..])
    else " " + Collapse(s[1..])
  }

  /** A character put in front of the first token ends up in front of the joined string. */
  lemma {:induction false} JoinExtend(c: char, ts: seq<string>)
    requires |ts| >= 1
    ensures Join([[c] + ts[0]] + ts[1..]) == [c] + Join(ts)
  {
    var r := [[c] + ts[0]] + ts[1..];
    if |ts| >= 2 {
      assert r[1..] == ts[1..];
      var j := Join(ts[1..]);
      assert Join(r) == ([c] + ts[0]) + " " + j;
      assert ([c] + ts[0]) + " " + j == [c] + (ts[0] + " " + j);
    }
  }

  lemma {:induction false} JoinCons(t: string, ts: seq<string>)
    requires |ts| >= 1
    ensures Join([t] + ts) == t + " " + Join(ts)
  {
    assert ([t] + ts)[1..] == ts;
  }

  /** Joining the tokens gives the string with each whitespace run collapsed to one space. */
  lemma {:induction false} JoinSplit(s: string)
    ensures Join(Split(s)) == Collapse(s)
  {
    if s != [] {
      var t := s[1..];
      JoinSplit(t);
      var r := Split(t);
      if !IsSpace(s[0]) {
        JoinExtend(s[0], r);
      } else if !(|s| > 1 && IsSpace(s[1])) {
        JoinCons("", r);
        assert "" + " " + Join(r) == " " + Join(r);
      }
    }
  }

  /** A word without whitespace put in front of a string joins its first token. */
  lemma {:induction false} SplitWord(w: string, rest: string)
    requires NoSpace(w)
    ensures Split(w + rest) == [w + Split(rest)[0]] + Split(rest)[1..]
  {
    var r := Split(rest);
    if w == [] {
      assert w + rest == rest;
      assert w + r[0] == r[0];
    } else {
      var v := w[1..];
      assert NoSpace(v) by {
        forall k | 0 <= k < |v| ensures !IsSpace(v[k]) {
          assert v[k] == w[k + 1];
        }
      }
      SplitWord(v, rest);
      assert (w + rest)[0] == w[0];
      assert (w + rest)[1..] == v + rest;
      assert [w[0]] + (v + r[0]) == w + r[0];
    }
  }

  /** The first character of a joined list with a nonempty first token. */
  lemma {:induction false} JoinFirst(ts: seq<string>)
    requires |ts| >= 1 && ts[0] != ""
    ensures Join(ts) != "" && Join(ts)[0] == ts[0][0]
  {
    if |ts| >= 2 {
      assert Join(ts) == ts[0] + (" " + Join(ts[1..]));
    }
  }

  /** Splitting the joined tokens gives them back, for token lists shaped like Split's results. */
  lemma {:induction false} SplitJoin(ts: seq<string>)
    requires WellSplit(ts)
    ensures Split(Join(ts)) == ts
  {
    var w := ts[0];
    if |ts| == 1 {
      SplitWord(w, "");
      assert w + "" == w;
    } else {
      var rest := ts[1..];
      assert WellSplit(rest) by {
        forall i | 0 <= i < |rest| ensures rest[i] == ts[i + 1] {
        }
      }
      SplitJoin(rest);
      var j := Join(rest);
      assert Join(ts) == w + (" " + j);
      SplitWord(w, " " + j);
      if rest[0] != "" {
        JoinFirst(rest);
      } else {
        assert |ts| == 2;
      }
      assert (" " + j)[1..] == j;
      assert Split(" " + j) == [""] + rest;
      assert w + "" == w;
    }
  }

  /** The joined string of lowercase tokens is lowercase. */
  lemma {:induction false} JoinLower(ts: seq<string>)
    requires forall i :: 0 <= i < |ts| ==> AllLower(ts[i])
    ensures AllLower(Join(ts))
  {
    if |ts| >= 2 {
      JoinLower(ts[1..]);
      var j := Join(ts[1..]);
      assert Join(ts) == ts[0] + " " + j;
      forall i | 0 <= i < |Join(ts)| ensures !IsUpper(Join(ts)[i]) {
        if i < |ts[0]| {
          assert Join(ts)[i] == ts[0][i];
        } else if i > |ts[0]| {
          assert Join(ts)[i] == j[i - |ts[0]| - 1];
        }
      }
    }
  }
}
