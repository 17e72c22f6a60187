/**
 * Text handling of the committee pyramid builder (NUV_Yuva.js): the
 * whitespace that `String.prototype.trim` and the regular expression `\s`
 * recognise, `trim`, the split of a name into words, and `initialsOf`.
 */
module MemberText {
  /** ECMAScript WhiteSpace and LineTerminator code points. */
  predicate IsSpace(c: char)
  {
    var u := c as int;
    || u == 0x09 || u == 0x0A || u == 0x0B || u == 0x0C || u == 0x0D || u == 0x20
    || u == 0xA0 || u == 0x1680 || (0x2000 <= u <= 0x200A) || u == 0x2028 || u == 0x2029
    || u == 0x202F || u == 0x205F || u == 0x3000 || u == 0xFEFF
  }

  /** The string holds a character that is not whitespace. */
  predicate Visible(s: string)
  {
    s != [] && (!IsSpace(s[0]) || Visible(s[1..]))
  }

  /** Visible means some position holds a character that is not whitespace. */
  lemma {:induction false} VisibleAt(s: string, k: nat)
    requires k < |s| && !IsSpace(s[k])
    ensures Visible(s)
    decreases k
  {
    if k > 0 && IsSpace(s[0]) {
      VisibleAt(s[1..], k - 1);
    }
  }

  /** Dropping a trailing whitespace character keeps what is visible. */
  lemma {:induction false} VisibleInit(s: string)
    requires s != [] && IsSpace(s[|s| - 1])
    ensures Visible(s) <==> Visible(s[..|s| - 1])
    decreases |s|
  {
    var init := s[..|s| - 1];
    if |s| > 1 {
      assert s[1..][..|s| - 2] == init[1..];
      assert init[0] == s[0];
      VisibleInit(s[1..]);
    }
  }

  function TrimStart(s: string): (r: string)
    ensures |r| <= |s|
    ensures r == [] || !IsSpace(r[0])
    ensures Visible(r) <==> Visible(s)
  {
    if s != [] && IsSpace(s[0]) then TrimStart(s[1..])
    else s
  }

  function TrimEnd(s: string): (r: string)
    ensures |r| <= |s|
    ensures r == [] || (!IsSpace(r[|r| - 1]) && r[0] == s[0])
    ensures Visible(r) <==> Visible(s)
  {
    if s != [] && IsSpace(s[|s| - 1]) then
      VisibleInit(s);
      TrimEnd(s[..|s| - 1])
    else s
  }

  /** `trimStart` drops leading whitespace only: what is left is a suffix, and all it dropped is whitespace. */
  lemma {:induction false} TrimStartDropsSpace(s: string)
    ensures TrimStart(s) == s[|s| - |TrimStart(s)|..]
    ensures forall k :: 0 <= k < |s| - |TrimStart(s)| ==> IsSpace(s[k])
    decreases |s|
  {
    if s != [] && IsSpace(s[0]) {
      TrimStartDropsSpace(s[1..]);
      assert s[1..][|s| - 1 - |TrimStart(s)|..] == s[|s| - |TrimStart(s)|..];
      forall k | 1 <= k < |s| - |TrimStart(s)|
        ensures IsSpace(s[k])
      {
        assert s[k] == s[1..][k - 1];
      }
    }
  }

  /** `trimEnd` drops trailing whitespace only: what is left is a prefix, and all it dropped is whitespace. */
  lemma {:induction false} TrimEndDropsSpace(s: string)
    ensures TrimEnd(s) == s[..|TrimEnd(s)|]
    ensures forall k :: |TrimEnd(s)| <= k < |s| ==> IsSpace(s[k])
    decreases |s|
  {
    if s != [] && IsSpace(s[|s| - 1]) {
      var init := s[..|s| - 1];
      TrimEndDropsSpace(init);
      assert init[..|TrimEnd(s)|] == s[..|TrimEnd(s)|];
      forall k | |TrimEnd(s)| <= k < |s| - 1
        ensures IsSpace(s[k])
      {
        assert s[k] == init[k];
      }
    }
  }

  /**
   * `trim`: the string without its leading and trailing whitespace; it is
   * empty exactly when the string holds nothing but whitespace.
   */
  function Trim(s: string): (r: string)
    ensures r == [] || (!IsSpace(r[0]) && !IsSpace(r[|r| - 1]))
    ensures r == [] <==> !Visible(s)
    ensures r == [] || Visible(r)
  {
    TrimFacts(s);
    TrimEnd(TrimStart(s))
  }

  lemma TrimFacts(s: string)
    ensures var r := TrimEnd(TrimStart(s)); r == [] || !IsSpace(r[0])
    ensures var r := TrimEnd(TrimStart(s)); r == [] <==> !Visible(s)
  {
    var t := TrimStart(s);
    var r := TrimEnd(t);
    if r != [] {
      VisibleAt(r, |r| - 1);
    }
  }

  /** Trimming twice changes nothing more. */
  lemma TrimIdempotent(s: string)
    ensures Trim(Trim(s)) == Trim(s)
  {
    var r := Trim(s);
    assert TrimStart(r) == r;
    assert TrimEnd(r) == r;
  }

  /** The maximal run of non-whitespace characters at the front. */
  function WordAt(s: string): (w: string)
    ensures |w| <= |s| && w == s[..|w|]
    ensures forall k :: 0 <= k < |w| ==> !IsSpace(w[k])
    ensures |w| == |s| || IsSpace(s[|w|])
  {
    if s == [] || IsSpace(s[0]) then [] else [s[0]] + WordAt(s[1..])
  }

  /**
   * `name.split(/\s+/).filter(Boolean)`: the maximal runs of non-whitespace
   * characters, in order; there are none exactly when the string is all whitespace.
   */
  function Words(s: string): (ws: seq<string>)
    ensures forall i :: 0 <= i < |ws| ==> ws[i] != [] && forall k :: 0 <= k < |ws[i]| ==> !IsSpace(ws[i][k])
    ensures ws != [] <==> Visible(s)
    decreases |s|
  {
    if s == [] then []
    else if IsSpace(s[0]) then Words(s[1..])
    else
      var w := WordAt(s);
      [w] + Words(s[|w|..])
  }

  /** The first character of a string that is not whitespace. */
  function FirstVisible(s: string): (c: char)
    requires Visible(s)
    ensures !IsSpace(c)
  {
    if !IsSpace(s[0]) then s[0]
    else FirstVisible(s[1..])
  }

  /** The first word starts at the first visible character. */
  lemma {:induction false} FirstWordStart(s: string)
    requires Visible(s)
    ensures Words(s)[0][0] == FirstVisible(s)
    decreases |s|
  {
    if IsSpace(s[0]) {
      FirstWordStart(s[1..]);
    }
  }

  /** `toUpperCase` on one character, for the ASCII letters. */
  function UpperChar(c: char): (u: char)
    ensures !('a' <= u <= 'z')
    ensures !('a' <= c <= 'z') ==> u == c
    ensures 'a' <= c <= 'z' ==> u as int == c as int - 32
  {
    if 'a' <= c <= 'z' then (c as int - 32) as char else c
  }

  function Upper(s: string): (u: string)
    ensures |u| == |s|
    ensures forall k :: 0 <= k < |s| ==> u[k] == UpperChar(s[k])
  {
    seq(|s|, k requires 0 <= k < |s| => UpperChar(s[k]))
  }

  /** A name `initialsOf` accepts: empty, or holding a word (a non-empty all-whitespace name makes it throw). */
  predicate Initialable(name: string)
  {
    name == [] || Visible(name)
  }

  /**
   * `initialsOf(name)`: '' for the empty name; the first two characters of a
   * one-word name; otherwise the first characters of the first two words;
   * upper-cased.  At most two characters, starting with the name's first
   * visible character, and none an ASCII lower-case letter.
   */
  function InitialsOf(name: string): (r: string)
    requires Initialable(name)
    ensures |r| <= 2
    ensures r == [] <==> name == []
    ensures name != [] ==> r[0] == UpperChar(FirstVisible(name))
    ensures forall k :: 0 <= k < |r| ==> !('a' <= r[k] <= 'z')
  {
    if name == [] then []
    else
      var parts := Words(name);
      FirstWordStart(name);
      if |parts| == 1 then Upper(parts[0][..if |parts[0]| < 2 then |parts[0]| else 2])
      else Upper([parts[0][0], parts[1][0]])
  }

  /** A trimmed text is always a name `initialsOf` accepts. */
  lemma TrimmedInitialable(s: string)
    ensures Initialable(Trim(s))
  {
  }

  /** A word followed by the end or by whitespace is read whole. */
  lemma {:induction false} WordAtPrefix(w: string, t: string)
    requires forall k :: 0 <= k < |w| ==> !IsSpace(w[k])
    requires t == [] || IsSpace(t[0])
    ensures WordAt(w + t) == w
    decreases |w|
  {
    if w != [] {
      assert (w + t)[1..] == w[1..] + t;
      WordAtPrefix(w[1..], t);
    } else {
      assert w + t == t;
    }
  }

  /** A name holding one word, whatever whitespace surrounds it, gives that word's first two characters, upper-cased. */
  lemma SingleWordInitials(lead: string, w: string, trail: string)
    requires forall k :: 0 <= k < |lead| ==> IsSpace(lead[k])
    requires w != [] && forall k :: 0 <= k < |w| ==> !IsSpace(w[k])
    requires forall k :: 0 <= k < |trail| ==> IsSpace(trail[k])
    ensures Visible(lead + w + trail)
    ensures InitialsOf(lead + w + trail) == Upper(w[..if |w| < 2 then |w| else 2])
  {
    assert lead + w + trail == lead + (w + trail);
    WordsSkipSpace(lead, w + trail);
    WordsFront(w, trail);
    WordsSkipSpace(trail, []);
    assert trail + [] == trail;
    assert Words(lead + w + trail) == [w];
  }

  /** A whole word at the front is the first word. */
  lemma WordsFront(w: string, t: string)
    requires w != [] && forall k :: 0 <= k < |w| ==> !IsSpace(w[k])
    requires t == [] || IsSpace(t[0])
    ensures Words(w + t) == [w] + Words(t)
  {
    WordAtPrefix(w, t);
    assert (w + t)[0] == w[0];
    assert (w + t)[|w|..] == t;
  }

  /** Whitespace in front of a string adds no word. */
  lemma {:induction false} WordsSkipSpace(sep: string, t: string)
    requires forall k :: 0 <= k < |sep| ==> IsSpace(sep[k])
    ensures Words(sep + t) == Words(t)
    decreases |sep|
  {
    if sep == [] {
      assert sep + t == t;
    } else {
      assert (sep + t)[0] == sep[0];
      assert (sep + t)[1..] == sep[1..] + t;
      WordsSkipSpace(sep[1..], t);
    }
  }

  /** Whitespace and then a whole word: that word is the first part. */
  lemma SpaceThenWord(sep: string, b: string, rest: string)
    requires forall k :: 0 <= k < |sep| ==> IsSpace(sep[k])
    requires b != [] && forall k :: 0 <= k < |b| ==> !IsSpace(b[k])
    requires rest == [] || IsSpace(rest[0])
    ensures Words(sep + (b + rest)) == [b] + Words(rest)
  {
    WordsSkipSpace(sep, b + rest);
    WordsFront(b, rest);
  }

  /** Two words with any whitespace around and between them are the first two parts of the split. */
  lemma TwoWordsFront(lead: string, a: string, sep: string, b: string, rest: string)
    requires forall k :: 0 <= k < |lead| ==> IsSpace(lead[k])
    requires a != [] && forall k :: 0 <= k < |a| ==> !IsSpace(a[k])
    requires sep != [] && forall k :: 0 <= k < |sep| ==> IsSpace(sep[k])
    requires b != [] && forall k :: 0 <= k < |b| ==> !IsSpace(b[k])
    requires rest == [] || IsSpace(rest[0])
    ensures Words(lead + (a + (sep + (b + rest)))) == [a, b] + Words(rest)
  {
    var tail := sep + (b + rest);
    SpaceThenWord(lead, a, tail);
    SpaceThenWord(sep, b, rest);
    assert [a] + ([b] + Words(rest)) == [a, b] + Words(rest);
  }

  /**
   * A name holding two or more words, with any whitespace before, between
   * and after them, gives the first characters of its first two words,
   * upper-cased.
   */
  lemma MultiWordInitials(lead: string, a: string, sep: string, b: string, rest: string)
    requires forall k :: 0 <= k < |lead| ==> IsSpace(lead[k])
    requires a != [] && forall k :: 0 <= k < |a| ==> !IsSpace(a[k])
    requires sep != [] && forall k :: 0 <= k < |sep| ==> IsSpace(sep[k])
    requires b != [] && forall k :: 0 <= k < |b| ==> !IsSpace(b[k])
    requires rest == [] || IsSpace(rest[0])
    ensures Visible(lead + (a + (sep + (b + rest))))
    ensures InitialsOf(lead + (a + (sep + (b + rest)))) == Upper([a[0], b[0]])
  {
    var s := lead + (a + (sep + (b + rest)));
    TwoWordsFront(lead, a, sep, b, rest);
    var parts := Words(s);
    assert parts[0] == a && parts[1] == b;
  }
}
