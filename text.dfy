/**
 The three `str` methods the row normaliser calls: `strip()` with no
 argument, `replace('Mr ', 'Mr')` and `split()` with no argument. Whitespace
 is the set of characters Python's `str.isspace` accepts.
 */
module Text {

  /** A character Python treats as whitespace in `strip()` and `split()`. */
  predicate IsSpace(c: char)
  {
    var n := c as int;
    (9 <= n <= 13) || (28 <= n <= 32) || n == 0x85 || n == 0xA0 || n == 0x1680
    || (0x2000 <= n <= 0x200A) || n == 0x2028 || n == 0x2029 || n == 0x202F
    || n == 0x205F || n == 0x3000
  }

  predicate Blank(s: string)
  {
    forall j :: 0 <= j < |s| ==> IsSpace(s[j])
  }

  predicate SpaceFree(s: string)
  {
    forall j :: 0 <= j < |s| ==> !IsSpace(s[j])
  }

  /** Number of whitespace characters at the front of `s`. */
  function LeadingSpaces(s: string): (n: nat)
    ensures n <= |s| && Blank(s[..n])
    ensures n < |s| ==> !IsSpace(s[n])
  {
    if |s| == 0 || !IsSpace(s[0]) then 0 else 1 + LeadingSpaces(s[1..])
  }

  /** Number of whitespace characters at the end of `s`. */
  function TrailingSpaces(s: string): (n: nat)
    ensures n <= |s| && Blank(s[|s| - n..])
    ensures n < |s| ==> !IsSpace(s[|s| - 1 - n])
  {
    if |s| == 0 || !IsSpace(s[|s| - 1]) then 0 else 1 + TrailingSpaces(s[..|s| - 1])
  }

  /** `s.strip()`: `s` without its leading and trailing whitespace. */
  function Strip(s: string): (r: string)
  {
    var front := LeadingSpaces(s);
    var t := s[front..];
    t[..|t| - TrailingSpaces(t)]
  }

  /** `not s.strip()` holds exactly when every character of `s` is whitespace. */
  lemma StripEmpty(s: string)
    ensures Strip(s) == [] <==> Blank(s)
  {
    var front := LeadingSpaces(s);
    var t := s[front..];
    if front < |s| {
      assert t[0] == s[front];
      assert !Blank(s);
    } else {
      assert s == s[..front];
    }
  }

  /** Length of the run of non-whitespace characters at the front of `s`. */
  function TokenLength(s: string): (n: nat)
    ensures n <= |s| && SpaceFree(s[..n])
    ensures n < |s| ==> IsSpace(s[n])
  {
    if |s| == 0 || IsSpace(s[0]) then 0 else 1 + TokenLength(s[1..])
  }

  /** `s.split()`: the maximal runs of non-whitespace characters, in order. */
  function Split(s: string): (r: seq<string>)
    ensures forall t :: t in r ==> t != [] && SpaceFree(t)
    decreases |s|
  {
    if |s| == 0 then []
    else if IsSpace(s[0]) then Split(s[1..])
    else
      var n := TokenLength(s);
      [s[..n]] + Split(s[n..])
  }

  /** `s` with every whitespace character removed. */
  function NonSpace(s: string): string
  {
    if |s| == 0 then []
    else if IsSpace(s[0]) then NonSpace(s[1..])
    else [s[0]] + NonSpace(s[1..])
  }

  function Concat(ts: seq<string>): string
  {
    if |ts| == 0 then [] else ts[0] + Concat(ts[1..])
  }

  lemma {:induction false} NonSpaceAppend(a: string, b: string)
    ensures NonSpace(a + b) == NonSpace(a) + NonSpace(b)
  {
    if |a| > 0 {
      assert (a + b)[1..] == a[1..] + b;
      NonSpaceAppend(a[1..], b);
    } else {
      assert a + b == b;
    }
  }

  lemma {:induction false} NonSpaceOfSpaceFree(s: string)
    requires SpaceFree(s)
    ensures NonSpace(s) == s
  {
    if |s| > 0 {
      NonSpaceOfSpaceFree(s[1..]);
    }
  }

  /** The tokens of `s`, glued together, are the non-whitespace text of `s`. */
  lemma {:induction false} SplitConcat(s: string)
    ensures Concat(Split(s)) == NonSpace(s)
    decreases |s|
  {
    if |s| == 0 {
    } else if IsSpace(s[0]) {
      SplitConcat(s[1..]);
    } else {
      var n := TokenLength(s);
      SplitConcat(s[n..]);
      assert s == s[..n] + s[n..];
      NonSpaceAppend(s[..n], s[n..]);
      NonSpaceOfSpaceFree(s[..n]);
      assert ([s[..n]] + Split(s[n..]))[1..] == Split(s[n..]);
    }
  }

  /** `s.split()` is empty exactly when `s` is all whitespace. */
  lemma {:induction false} SplitEmpty(s: string)
    ensures Split(s) == [] <==> Blank(s)
    decreases |s|
  {
    if |s| > 0 && IsSpace(s[0]) {
      SplitEmpty(s[1..]);
      assert forall j :: 1 <= j < |s| ==> s[j] == s[1..][j - 1];
    }
  }

  /** One token on its own splits to itself. */
  lemma SplitSpaceFree(t: string)
    requires t != [] && SpaceFree(t)
    ensures Split(t) == [t]
  {
    var n := TokenLength(t);
    assert n == |t|;
    assert t[..n] == t && t[n..] == [];
  }

  /** Leading whitespace is dropped. */
  lemma {:induction false} SplitLeadingBlank(w: string, s: string)
    requires Blank(w)
    ensures Split(w + s) == Split(s)
    decreases |w|
  {
    if |w| > 0 {
      assert (w + s)[0] == w[0];
      assert (w + s)[1..] == w[1..] + s;
      SplitLeadingBlank(w[1..], s);
    } else {
      assert w + s == s;
    }
  }

  /** A token followed by a whitespace character is split off as one field. */
  lemma SplitToken(t: string, c: char, s: string)
    requires t != [] && SpaceFree(t) && IsSpace(c)
    ensures Split(t + [c] + s) == [t] + Split(s)
  {
    var u := t + [c] + s;
    var n := TokenLength(u);
    assert u[|t|] == c;
    assert n == |t|;
    assert u[..n] == t;
    assert u[n..] == [c] + s;
    assert ([c] + s)[1..] == s;
  }

  /** `s` contains the text `'Mr '` starting at index `j`. */
  predicate OccursAt(s: string, j: int)
  {
    0 <= j && j + 3 <= |s| && s[j..j + 3] == "Mr "
  }

  /** `s.replace('Mr ', 'Mr')`: occurrences are found left to right and do not overlap. */
  function ReplaceMr(s: string): (r: string)
    ensures |r| <= |s|
    decreases |s|
  {
    if OccursAt(s, 0) then "Mr" + ReplaceMr(s[3..])
    else if |s| == 0 then []
    else [s[0]] + ReplaceMr(s[1..])
  }

  /** Text without an occurrence is returned unchanged. */
  lemma {:induction false} ReplaceMrNoOccurrence(s: string)
    requires forall j :: 0 <= j < |s| ==> !OccursAt(s, j)
    ensures ReplaceMr(s) == s
    decreases |s|
  {
    if |s| > 0 {
      forall j | 0 <= j < |s| - 1
        ensures !OccursAt(s[1..], j)
      {
        assert !OccursAt(s, j + 1);
        if j + 3 <= |s| - 1 {
          assert s[1..][j..j + 3] == s[j + 1..j + 4];
        }
      }
      ReplaceMrNoOccurrence(s[1..]);
    }
  }

  /**
   Every occurrence is replaced, and the text around it is treated
   independently: `'Mr '` cannot overlap itself, so no occurrence starting
   in `p` can reach into the one that follows.
   */
  lemma {:induction false} ReplaceMrOccurrence(p: string, q: string)
    ensures ReplaceMr(p + "Mr " + q) == ReplaceMr(p) + "Mr" + ReplaceMr(q)
    decreases |p|
  {
    var s := p + "Mr " + q;
    if |p| == 0 {
      assert s == "Mr " + q;
      assert OccursAt(s, 0);
      assert s[3..] == q;
    } else if OccursAt(p, 0) {
      assert s[..3] == p[..3];
      assert s[3..] == p[3..] + "Mr " + q;
      ReplaceMrOccurrence(p[3..], q);
    } else {
      assert !OccursAt(s, 0) by {
        if |p| >= 3 {
          assert s[..3] == p[..3];
        } else if |p| == 1 {
          assert s[1] == 'M';
        } else {
          assert s[2] == 'M';
        }
      }
      assert s[0] == p[0];
      assert s[1..] == p[1..] + "Mr " + q;
      ReplaceMrOccurrence(p[1..], q);
    }
  }

  /** The replacement deletes spaces only. */
  lemma {:induction false} ReplaceMrNonSpace(s: string)
    ensures NonSpace(ReplaceMr(s)) == NonSpace(s)
    decreases |s|
  {
    if OccursAt(s, 0) {
      ReplaceMrNonSpace(s[3..]);
      assert s == "Mr " + s[3..];
      NonSpaceAppend("Mr ", s[3..]);
      NonSpaceAppend("Mr", ReplaceMr(s[3..]));
      assert NonSpace("Mr ") == "Mr" by {
        assert "Mr "[1..] == "r " && "r "[1..] == " " && " "[1..] == [];
      }
      assert NonSpace("Mr") == "Mr" by {
        assert "Mr"[1..] == "r" && "r"[1..] == [];
      }
    } else if |s| > 0 {
      ReplaceMrNonSpace(s[1..]);
      assert ([s[0]] + ReplaceMr(s[1..]))[1..] == ReplaceMr(s[1..]);
    }
  }
}
