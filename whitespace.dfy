/**
 * The whitespace helpers of the analysis engine: `cleanText`, which is
 * `text.replace(/\s+/g, ' ').trim()`, and the `trim()` the summariser applies
 * to every kept sentence. Both use JavaScript's notion of whitespace.
 */
module Whitespace {
  import opened Strings

  /** JavaScript's `\s` class, which is also the set `String.prototype.trim` removes:
      TAB, LF, VT, FF, CR, SPACE, NBSP, the other space separators and LS, PS, ZWNBSP. */
  predicate IsSpace(c: char)
  {
    var k := c as int;
    (0x09 <= k <= 0x0D) || k == 0x20 || k == 0xA0 || k == 0x1680 ||
    (0x2000 <= k <= 0x200A) || k == 0x2028 || k == 0x2029 || k == 0x202F ||
    k == 0x205F || k == 0x3000 || k == 0xFEFF
  }

  /** The only whitespace is ' ', and no two whitespace characters are adjacent. */
  predicate Collapsed(r: string)
  {
    && (forall i :: 0 <= i < |r| && IsSpace(r[i]) ==> r[i] == ' ')
    && (forall i :: 0 <= i < |r| - 1 ==> !(IsSpace(r[i]) && IsSpace(r[i + 1])))
  }

  /** The normal form `cleanText` produces: collapsed, and no whitespace at either end. */
  predicate IsClean(r: string)
  {
    Collapsed(r) && (|r| > 0 ==> !IsSpace(r[0]) && !IsSpace(r[|r| - 1]))
  }

  /** `s.replace(/\s+/g, ' ')`: every maximal run of whitespace becomes one ' '. */
  function Collapse(s: string): (r: string)
    ensures |r| <= |s|
    ensures |r| == 0 <==> |s| == 0
  {
    if |s| == 0 then []
    else if IsSpace(s[0]) then
      (if |s| > 1 && IsSpace(s[1]) then Collapse(s[1..]) else [' '] + Collapse(s[1..]))
    else [s[0]] + Collapse(s[1..])
  }

  /** `Collapse` leaves no whitespace but ' ' and no two whitespace characters side by side,
      and it starts with ' ' exactly where `s` starts with whitespace. */
  lemma {:induction false} CollapseIsCollapsed(s: string)
    ensures Collapsed(Collapse(s))
    ensures |s| > 0 ==> |Collapse(s)| > 0 && Collapse(s)[0] == (if IsSpace(s[0]) then ' ' else s[0])
  {
    if |s| > 0 {
      var rest := Collapse(s[1..]);
      CollapseIsCollapsed(s[1..]);
      var r := Collapse(s);
      if IsSpace(s[0]) && !(|s| > 1 && IsSpace(s[1])) {
        assert r == [' '] + rest;
        forall i | 0 <= i < |r| - 1 ensures !(IsSpace(r[i]) && IsSpace(r[i + 1])) {
          if i > 0 {
            assert r[i] == rest[i - 1] && r[i + 1] == rest[i];
          }
        }
      } else if !IsSpace(s[0]) {
        assert r == [s[0]] + rest;
        forall i | 0 <= i < |r| - 1 ensures !(IsSpace(r[i]) && IsSpace(r[i + 1])) {
          if i > 0 {
            assert r[i] == rest[i - 1] && r[i + 1] == rest[i];
          }
        }
      }
    }
  }

  /** Leading whitespace removed: what is left is a suffix that does not start with whitespace,
      and everything dropped was whitespace. */
  function TrimStart(s: string): (r: string)
    ensures |r| <= |s| && r == s[|s| - |r|..]
    ensures |r| > 0 ==> !IsSpace(r[0])
    ensures forall i :: 0 <= i < |s| - |r| ==> IsSpace(s[i])
  {
    if |s| > 0 && IsSpace(s[0]) then
      var r := TrimStart(s[1..]);
      assert s[|s| - |r|..] == s[1..][|s| - 1 - |r|..];
      assert forall i :: 1 <= i < |s| - |r| ==> s[i] == s[1..][i - 1];
      r
    else s
  }

  /** Trailing whitespace removed: what is left is a prefix that does not end with whitespace,
      and everything dropped was whitespace. */
  function TrimEnd(s: string): (r: string)
    ensures |r| <= |s| && r == s[..|r|]
    ensures |r| > 0 ==> !IsSpace(r[|r| - 1])
    ensures forall i :: |r| <= i < |s| ==> IsSpace(s[i])
  {
    if |s| > 0 && IsSpace(s[|s| - 1]) then
      var r := TrimEnd(s[..|s| - 1]);
      assert s[..|r|] == s[..|s| - 1][..|r|];
      r
    else s
  }

  /** `s.trim()`. */
  function Trim(s: string): (r: string)
    ensures |r| <= |s|
    ensures |r| > 0 ==> !IsSpace(r[0]) && !IsSpace(r[|r| - 1])
  {
    TrimEnd(TrimStart(s))
  }

  /** `cleanText(text)`. */
  function CleanText(s: string): (r: string)
    ensures |r| <= |s|
    ensures |r| > 0 ==> !IsSpace(r[0]) && !IsSpace(r[|r| - 1])
  {
    Trim(Collapse(s))
  }

  /** Length of the maximal run of non-whitespace characters that starts `s`. */
  function WordLen(s: string): (k: nat)
    ensures k <= |s|
    ensures forall i :: 0 <= i < k ==> !IsSpace(s[i])
    ensures k < |s| ==> IsSpace(s[k])
  {
    if |s| == 0 || IsSpace(s[0]) then 0 else 1 + WordLen(s[1..])
  }

  /** The words of `s`: its maximal runs of non-whitespace characters, in order. */
  function Words(s: string): seq<string>
    decreases |s|
  {
    if |s| == 0 then []
    else if IsSpace(s[0]) then Words(s[1..])
    else [s[..WordLen(s)]] + Words(s[WordLen(s)..])
  }

  /** A slice of a collapsed string is collapsed. */
  lemma CollapsedSlice(s: string, a: nat, b: nat)
    requires Collapsed(s) && a <= b <= |s|
    ensures Collapsed(s[a..b])
  {
    var t := s[a..b];
    forall i | 0 <= i < |t| - 1 ensures !(IsSpace(t[i]) && IsSpace(t[i + 1])) {
      assert t[i] == s[a + i] && t[i + 1] == s[a + i + 1];
    }
  }

  /** `cleanText` yields the normal form: no whitespace at either end, no whitespace other
      than ' ', and never two whitespace characters side by side. */
  lemma CleanTextIsClean(s: string)
    ensures IsClean(CleanText(s))
  {
    var c := Collapse(s);
    CollapseIsCollapsed(s);
    var t := TrimStart(c);
    TrimStartKeepsCollapsed(c);
    var r := TrimEnd(t);
    TrimEndKeepsCollapsed(t);
    if |r| > 0 {
      assert r[0] == t[0];
    }
  }

  lemma TrimStartKeepsCollapsed(c: string)
    requires Collapsed(c)
    ensures Collapsed(TrimStart(c))
  {
    var t := TrimStart(c);
    CollapsedSlice(c, |c| - |t|, |c|);
    assert c[|c| - |t|..|c|] == t;
  }

  lemma TrimEndKeepsCollapsed(t: string)
    requires Collapsed(t)
    ensures Collapsed(TrimEnd(t))
  {
    var r := TrimEnd(t);
    CollapsedSlice(t, 0, |r|);
    assert t[0..|r|] == r;
  }

  /** Whitespace in front of a string does not change its words. */
  lemma {:induction false} WordsAfterSpaces(s: string, k: nat)
    requires k <= |s|
    requires forall i :: 0 <= i < k ==> IsSpace(s[i])
    ensures Words(s[k..]) == Words(s)
  {
    if k > 0 {
      WordsAfterSpaces(s[1..], k - 1);
      assert s[1..][k - 1..] == s[k..];
    }
  }

  /** Whitespace after a string does not change its words. */
  lemma {:induction false} WordsBeforeSpaces(t: string, sp: string)
    requires forall i :: 0 <= i < |sp| ==> IsSpace(sp[i])
    ensures Words(t + sp) == Words(t)
    decreases |t|
  {
    if |t| == 0 {
      assert t + sp == sp;
      WordsAfterSpaces(sp, |sp|);
      assert sp[|sp|..] == [];
    } else if IsSpace(t[0]) {
      assert (t + sp)[1..] == t[1..] + sp;
      WordsBeforeSpaces(t[1..], sp);
    } else {
      var w := WordLen(t);
      WordLenOfExtension(t, sp);
      assert (t + sp)[..w] == t[..w];
      assert (t + sp)[w..] == t[w..] + sp;
      WordsBeforeSpaces(t[w..], sp);
    }
  }

  /** Appending text that is empty or starts with whitespace leaves the first word's length alone. */
  lemma {:induction false} WordLenOfExtension(t: string, x: string)
    requires |x| == 0 || IsSpace(x[0])
    ensures WordLen(t + x) == WordLen(t)
    decreases |t|
  {
    if |t| == 0 {
      assert t + x == x;
    } else if !IsSpace(t[0]) {
      assert (t + x)[1..] == t[1..] + x;
      WordLenOfExtension(t[1..], x);
    }
  }

  /** A word followed by nothing or by whitespace is the first word. */
  lemma WordsOfWordThen(w: string, x: string)
    requires |w| > 0 && forall i :: 0 <= i < |w| ==> !IsSpace(w[i])
    requires |x| == 0 || IsSpace(x[0])
    ensures Words(w + x) == [w] + Words(x)
  {
    WordLenOfExtension(w, x);
    WordLenOfWord(w);
    assert (w + x)[..|w|] == w;
    assert (w + x)[|w|..] == x;
  }

  /** A string without whitespace is one word long. */
  lemma {:induction false} WordLenOfWord(w: string)
    requires forall i :: 0 <= i < |w| ==> !IsSpace(w[i])
    ensures WordLen(w) == |w|
  {
    if |w| > 0 {
      WordLenOfWord(w[1..]);
    }
  }

  /** Collapsing copies the leading word unchanged. */
  lemma {:induction false} CollapseKeepsWord(s: string, k: nat)
    requires k <= WordLen(s)
    ensures Collapse(s) == s[..k] + Collapse(s[k..])
  {
    if k > 0 {
      assert !IsSpace(s[0]) && WordLen(s) == 1 + WordLen(s[1..]);
      CollapseKeepsWord(s[1..], k - 1);
      assert Collapse(s) == [s[0]] + Collapse(s[1..]);
      assert s[1..][k - 1..] == s[k..];
      ConsSlice(s, k, Collapse(s[k..]));
    }
  }

  /** The first element followed by the next `k - 1` is the first `k`. */
  lemma ConsSlice<T>(s: seq<T>, k: nat, rest: seq<T>)
    requires 0 < k <= |s|
    ensures [s[0]] + (s[1..][..k - 1] + rest) == s[..k] + rest
  {
    assert s[..k] == [s[0]] + s[1..][..k - 1];
  }

  /** Collapsing whitespace runs keeps the words and their order. */
  lemma {:induction false} WordsOfCollapse(s: string)
    ensures Words(Collapse(s)) == Words(s)
    decreases |s|
  {
    if |s| == 0 {
    } else if IsSpace(s[0]) {
      WordsOfCollapse(s[1..]);
      if !(|s| > 1 && IsSpace(s[1])) {
        var x := Collapse(s[1..]);
        assert ([' '] + x)[1..] == x;
      }
    } else {
      var w := WordLen(s);
      CollapseKeepsWord(s, w);
      var rest := Collapse(s[w..]);
      CollapseIsCollapsed(s[w..]);
      WordsOfWordThen(s[..w], rest);
      WordsOfCollapse(s[w..]);
    }
  }

  /** Trimming keeps the words and their order. */
  lemma WordsOfTrim(s: string)
    ensures Words(Trim(s)) == Words(s)
  {
    WordsOfTrimStart(s);
    WordsOfTrimEnd(TrimStart(s));
  }

  /** Trimming the front keeps the words. */
  lemma WordsOfTrimStart(s: string)
    ensures Words(TrimStart(s)) == Words(s)
  {
    var t := TrimStart(s);
    WordsAfterSpaces(s, |s| - |t|);
  }

  /** Trimming the back keeps the words. */
  lemma WordsOfTrimEnd(t: string)
    ensures Words(TrimEnd(t)) == Words(t)
  {
    var r := TrimEnd(t);
    assert t == r + t[|r|..];
    WordsBeforeSpaces(r, t[|r|..]);
  }

  /** A string in normal form is its own words joined by single spaces. */
  lemma {:induction false} CleanIsJoinedWords(r: string)
    requires IsClean(r)
    ensures r == Join(Words(r), " ")
    decreases |r|
  {
    if |r| > 0 {
      if WordLen(r) < |r| {
        var w := WordLen(r);
        CleanAfterFirstWord(r);
        WordsOfCleanSplit(r);
        CleanIsJoinedWords(r[w + 1..]);
        JoinedAfterFirstWord(r, w, Words(r[w + 1..]));
      } else {
        WordLenOfExtension(r, []);
        WordsOfWordThen(r, []);
        assert r + [] == r;
      }
    }
  }

  /** The inductive step of `CleanIsJoinedWords`: a first word, one ' ', and a rest that is
      the join of `ws`. */
  lemma JoinedAfterFirstWord(r: string, w: nat, ws: seq<string>)
    requires w + 1 < |r| && r[w] == ' ' && |ws| > 0
    requires r[w + 1..] == Join(ws, " ")
    ensures r == Join([r[..w]] + ws, " ")
  {
    JoinCons(r[..w], ws, " ");
    assert r == r[..w] + " " + r[w + 1..];
  }

  /** In normal form, the first word is followed by nothing or by one ' ' and a non-empty rest
      that is again in normal form. */
  lemma CleanAfterFirstWord(r: string)
    requires IsClean(r) && |r| > 0 && WordLen(r) < |r|
    ensures WordLen(r) > 0 && WordLen(r) + 1 < |r| && r[WordLen(r)] == ' '
    ensures IsClean(r[WordLen(r) + 1..])
  {
    var w := WordLen(r);
    assert !IsSpace(r[w + 1]);
    CollapsedSlice(r, w + 1, |r|);
    assert r[w + 1..][|r| - w - 2] == r[|r| - 1];
  }

  /** The words of a normal-form string with a space in it: its first word, then the words
      after the space that follows it. */
  lemma WordsOfCleanSplit(r: string)
    requires IsClean(r) && |r| > 0 && WordLen(r) < |r|
    ensures WordLen(r) + 1 < |r|
    ensures Words(r) == [r[..WordLen(r)]] + Words(r[WordLen(r) + 1..])
    ensures |Words(r[WordLen(r) + 1..])| > 0
  {
    var w := WordLen(r);
    CleanAfterFirstWord(r);
    WordsAfterSpaces(r[w..], 1);
    assert r[w..][1..] == r[w + 1..];
    var rest := r[w + 1..];
    assert !IsSpace(rest[0]);
  }

  /** `cleanText(s)` is exactly the words of `s` joined by single spaces. */
  lemma CleanTextJoinsWords(s: string)
    ensures CleanText(s) == Join(Words(s), " ")
  {
    CleanTextIsClean(s);
    CleanIsJoinedWords(CleanText(s));
    WordsOfTrim(Collapse(s));
    WordsOfCollapse(s);
  }

  /** `cleanText` is idempotent. */
  lemma CleanTextIdempotent(s: string)
    ensures CleanText(CleanText(s)) == CleanText(s)
  {
    CleanTextJoinsWords(s);
    CleanTextJoinsWords(CleanText(s));
    WordsOfTrim(Collapse(s));
    WordsOfCollapse(s);
  }

  /** `cleanText` leaves a string unchanged exactly when it is already in normal form. */
  lemma CleanTextFixedExactlyOnClean(s: string)
    ensures CleanText(s) == s <==> IsClean(s)
  {
    CleanTextIsClean(s);
    if IsClean(s) {
      CleanIsJoinedWords(s);
      CleanTextJoinsWords(s);
    }
  }
}
