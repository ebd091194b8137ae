/** The few Python string and path primitives the manager's decisions rest on:
    substring tests (`t in s`), `str.endswith`, `str.strip`, `str.lower`,
    `str.isdigit`, and the POSIX flavours of `os.path.join`,
    `os.path.basename` and `os.path.splitext`. */
module PyText {

  /** `t in s` for Python strings: case-sensitive substring search. */
  predicate Contains(s: string, t: string)
    decreases |s|
  {
    if t <= s then true
    else if |s| == 0 then false
    else Contains(s[1..], t)
  }

  /** The reference meaning of a substring occurrence: `t` sits at offset `i` of `s`. */
  ghost predicate OccursAt(s: string, t: string, i: int)
  {
    0 <= i && i + |t| <= |s| && s[i..i + |t|] == t
  }

  lemma {:induction false} ContainsIff(s: string, t: string)
    ensures Contains(s, t) <==> exists i :: OccursAt(s, t, i)
  {
    if Contains(s, t) {
      var i := ContainsWitness(s, t);
      assert OccursAt(s, t, i);
    }
    forall i | OccursAt(s, t, i) ensures Contains(s, t) {
      OccursAtContains(s, t, i);
    }
  }

  /** The offset at which `Contains` found `t`. */
  lemma {:induction false} ContainsWitness(s: string, t: string) returns (i: nat)
    requires Contains(s, t)
    ensures OccursAt(s, t, i)
    decreases |s|
  {
    if t <= s {
      i := 0;
    } else {
      var j := ContainsWitness(s[1..], t);
      assert s[1..][j..j + |t|] == s[j + 1..j + 1 + |t|];
      i := j + 1;
    }
  }

  lemma {:induction false} OccursAtContains(s: string, t: string, i: int)
    requires OccursAt(s, t, i)
    ensures Contains(s, t)
    decreases i
  {
    if i == 0 {
      assert s[..|t|] == t;
    } else if !(t <= s) {
      assert s[1..][i - 1..i - 1 + |t|] == s[i..i + |t|];
      OccursAtContains(s[1..], t, i - 1);
    }
  }

  /** An occurrence inside a larger string is still an occurrence. */
  lemma ContainsInFix(a: string, t: string, b: string)
    ensures Contains(a + t + b, t)
  {
    assert (a + t + b)[|a|..|a| + |t|] == t;
    OccursAtContains(a + t + b, t, |a|);
  }

  /** `s.endswith(suffix)`. */
  predicate EndsWith(s: string, suffix: string)
  {
    |suffix| <= |s| && s[|s| - |suffix|..] == suffix
  }

  /** A suffix of a suffix is a suffix. */
  lemma EndsWithTrans(s: string, t: string, u: string)
    requires EndsWith(s, t) && EndsWith(t, u)
    ensures EndsWith(s, u)
  {
    assert s[|s| - |u|..] == t[|t| - |u|..];
  }

  /** The characters Python's `str.isspace` accepts (used by `strip`). */
  predicate IsSpace(c: char)
  {
    ('\t' <= c <= '\r') || ('\U{1c}' <= c <= '\U{1f}') || c == ' '
    || c == '\U{85}' || c == '\U{a0}' || c == '\U{1680}'
    || ('\U{2000}' <= c <= '\U{200a}') || c == '\U{2028}' || c == '\U{2029}'
    || c == '\U{202f}' || c == '\U{205f}' || c == '\U{3000}'
  }

  /** `s.lstrip()`. */
  function LStrip(s: string): (r: string)
    ensures |r| <= |s| && r == s[|s| - |r|..]
    ensures forall k :: 0 <= k < |s| - |r| ==> IsSpace(s[k])
    ensures r == [] || !IsSpace(r[0])
  {
    if |s| > 0 && IsSpace(s[0]) then LStrip(s[1..]) else s
  }

  /** `s.rstrip()`. */
  function RStrip(s: string): (r: string)
    ensures |r| <= |s| && r == s[..|r|]
    ensures forall k :: |r| <= k < |s| ==> IsSpace(s[k])
    ensures r == [] || !IsSpace(r[|r| - 1])
  {
    if |s| > 0 && IsSpace(s[|s| - 1]) then RStrip(s[..|s| - 1]) else s
  }

  /** `s.strip()`: both ends, whitespace as `str.isspace` defines it. */
  function Strip(s: string): string
  {
    RStrip(LStrip(s))
  }

  /** What `strip` returns: the piece `s[i..j]` of the input, with only
      whitespace cut off on either side. */
  lemma StripShape(s: string) returns (i: nat, j: nat)
    ensures i <= j <= |s| && Strip(s) == s[i..j]
    ensures forall k :: 0 <= k < i ==> IsSpace(s[k])
    ensures forall k :: j <= k < |s| ==> IsSpace(s[k])
  {
    var l := LStrip(s);
    i := |s| - |l|;
    var r := RStrip(l);
    j := i + |r|;
    assert l == s[i..];
    assert r == l[..|r|];
    forall k | j <= k < |s| ensures IsSpace(s[k]) {
      assert s[k] == l[k - i];
    }
  }

  /** Neither end of what `strip` returns is whitespace. */
  lemma StripEnds(s: string)
    ensures Strip(s) == [] || (!IsSpace(Strip(s)[0]) && !IsSpace(Strip(s)[|Strip(s)| - 1]))
  {
    var l := LStrip(s);
    var r := RStrip(l);
    if r != [] {
      assert r[0] == l[0];
    }
  }

  /** Stripping twice is stripping once. */
  lemma StripIdempotent(s: string)
    ensures Strip(Strip(s)) == Strip(s)
  {
    StripEnds(s);
    StripKeepsTrimmed(Strip(s));
  }

  /** A string with no whitespace at either end is left alone. */
  lemma StripKeepsTrimmed(s: string)
    requires s == [] || (!IsSpace(s[0]) && !IsSpace(s[|s| - 1]))
    ensures Strip(s) == s
  {
  }

  /** `str.lower` on ASCII letters; every other character is kept. */
  function LowerChar(c: char): char
  {
    if 'A' <= c <= 'Z' then (c as int + 32) as char else c
  }

  function Lower(s: string): (r: string)
    ensures |r| == |s|
    ensures forall k :: 0 <= k < |s| ==> r[k] == LowerChar(s[k])
  {
    seq(|s|, k requires 0 <= k < |s| => LowerChar(s[k]))
  }

  /** The answer to a y/n prompt is taken as yes by `answer.lower().strip().startswith('y')`. */
  predicate SaysYes(answer: string)
  {
    "y" <= Strip(Lower(answer))
  }

  /** Lower-casing neither creates nor removes whitespace. */
  lemma LowerKeepsSpace(c: char)
    ensures IsSpace(LowerChar(c)) <==> IsSpace(c)
    ensures LowerChar(c) == 'y' <==> (c == 'y' || c == 'Y')
  {
  }

  /** `lstrip` starts at the first non-whitespace character. */
  lemma {:induction false} LStripAt(s: string, k: nat)
    requires k < |s| && !IsSpace(s[k])
    requires forall m :: 0 <= m < k ==> IsSpace(s[m])
    ensures LStrip(s) == s[k..]
  {
    if k > 0 {
      LStripAt(s[1..], k - 1);
      assert s[1..][k - 1..] == s[k..];
    }
  }

  /** The first non-whitespace character of `answer` is at `k` and is `y` or `Y`. */
  ghost predicate YesAt(answer: string, k: int)
  {
    0 <= k < |answer| && (answer[k] == 'y' || answer[k] == 'Y')
    && forall m :: 0 <= m < k ==> IsSpace(answer[m])
  }

  /** Reading of `SaysYes`: after any amount of leading whitespace, the answer's
      first character is `y` or `Y`. */
  lemma SaysYesIff(answer: string)
    ensures SaysYes(answer) <==> exists k :: YesAt(answer, k)
  {
    if SaysYes(answer) {
      var k := SaysYesWitness(answer);
    }
    forall k | YesAt(answer, k) ensures SaysYes(answer) {
      YesAtSaysYes(answer, k);
    }
  }

  lemma SaysYesWitness(answer: string) returns (k: nat)
    requires SaysYes(answer)
    ensures YesAt(answer, k)
  {
    var low := Lower(answer);
    var l := LStrip(low);
    k := |low| - |l|;
    assert Strip(low)[0] == l[0] == low[k];
    LowerKeepsSpace(answer[k]);
    forall m | 0 <= m < k ensures IsSpace(answer[m]) {
      LowerKeepsSpace(answer[m]);
    }
  }

  lemma YesAtSaysYes(answer: string, k: int)
    requires YesAt(answer, k)
    ensures SaysYes(answer)
  {
    var low := Lower(answer);
    forall m | 0 <= m < k ensures IsSpace(low[m]) {
      LowerKeepsSpace(answer[m]);
    }
    LowerKeepsSpace(answer[k]);
    LStripAt(low, k);
    var l := LStrip(low);
    assert l[0] == 'y';
    assert Strip(low)[0] == 'y';
  }

  /** `c.isdigit()` restricted to the ASCII digits. */
  predicate IsDigit(c: char)
  {
    '0' <= c <= '9'
  }

  /** `s.isdigit()`: non-empty and every character a digit. */
  predicate AllDigits(s: string)
  {
    |s| > 0 && forall k :: 0 <= k < |s| ==> IsDigit(s[k])
  }

  /** `int(s)` for a string of ASCII digits (leading zeros allowed). */
  function DecimalValue(s: string): nat
    requires forall k :: 0 <= k < |s| ==> IsDigit(s[k])
  {
    if |s| == 0 then 0
    else 10 * DecimalValue(s[..|s| - 1]) + DigitValue(s[|s| - 1])
  }

  function DigitValue(c: char): nat
    requires IsDigit(c)
  {
    c as int - '0' as int
  }

  /** `str(n)`: the canonical decimal text of a natural number. */
  function DecimalText(n: nat): (r: string)
    ensures |r| > 0
    ensures forall k :: 0 <= k < |r| ==> IsDigit(r[k])
    ensures n > 0 ==> r[0] != '0'
  {
    if n < 10 then [('0' as int + n) as char]
    else DecimalText(n / 10) + [('0' as int + n % 10) as char]
  }

  /** `int(str(n)) == n`. */
  lemma {:induction false} DecimalRoundTrip(n: nat)
    ensures DecimalValue(DecimalText(n)) == n
  {
    var r := DecimalText(n);
    if n >= 10 {
      DecimalRoundTrip(n / 10);
      assert r[..|r| - 1] == DecimalText(n / 10);
    }
  }

  /** The index of the last `c` in `s`, or -1 (`s.rfind(c)`). */
  function RFind(s: string, c: char): (r: int)
    ensures -1 <= r < |s|
  {
    if |s| == 0 then -1
    else if s[|s| - 1] == c then |s| - 1
    else RFind(s[..|s| - 1], c)
  }

  /** Both directions: `i` is what `rfind` returns exactly when `s[i]` is `c`
      (or `i` is -1) and no `c` comes after `i`. */
  lemma {:induction false} RFindIff(s: string, c: char, i: int)
    requires -1 <= i < |s|
    ensures RFind(s, c) == i <==> (i >= 0 ==> s[i] == c) && forall k :: i < k < |s| ==> s[k] != c
  {
    if |s| > 0 && s[|s| - 1] != c {
      var q := s[..|s| - 1];
      if i < |q| {
        RFindIff(q, c, i);
        assert forall k :: i < k < |q| ==> q[k] == s[k];
      } else {
        RFindLast(q, c);
      }
    }
  }

  /** What `rfind` returns: a `c` (or -1), with no `c` after it. */
  lemma {:induction false} RFindLast(s: string, c: char)
    ensures RFind(s, c) >= 0 ==> s[RFind(s, c)] == c
    ensures forall k :: RFind(s, c) < k < |s| ==> s[k] != c
  {
    if |s| > 0 && s[|s| - 1] != c {
      var q := s[..|s| - 1];
      RFindLast(q, c);
      assert forall k :: RFind(s, c) < k < |q| ==> q[k] == s[k];
    }
  }

  /** `posixpath.join(a, b)`: an absolute `b` replaces `a`; otherwise a single
      separator is inserted unless `a` is empty or already ends with one. */
  function Join(a: string, b: string): string
  {
    if "/" <= b then b
    else if a == [] || EndsWith(a, "/") then a + b
    else a + "/" + b
  }

  /** The joined path ends with its last part, which replaces the first when
      it is absolute, and otherwise starts with the first part. */
  lemma JoinShape(a: string, b: string)
    ensures EndsWith(Join(a, b), b)
    ensures "/" <= b ==> Join(a, b) == b
    ensures !("/" <= b) ==> a <= Join(a, b)
  {
    var r := Join(a, b);
    assert r[|r| - |b|..] == b;
  }

  /** `posixpath.basename(p)`: everything after the last separator. */
  function Basename(p: string): string
  {
    p[RFind(p, '/') + 1..]
  }

  /** The base name is the tail of the path after which no separator follows. */
  lemma BasenameShape(p: string)
    ensures EndsWith(p, Basename(p))
    ensures forall k :: 0 <= k < |Basename(p)| ==> Basename(p)[k] != '/'
  {
    var i := RFind(p, '/') + 1;
    RFindLast(p, '/');
    forall k | 0 <= k < |Basename(p)| ensures Basename(p)[k] != '/' {
      assert Basename(p)[k] == p[i + k];
    }
  }

  /** The extension search of `posixpath.splitext`: only a dot that is after the
      last separator and preceded, within the final component, by some
      character other than a dot starts an extension. */
  function Splitext(p: string): (r: (string, string))
    ensures r.0 + r.1 == p
  {
    var sepIndex := RFind(p, '/');
    var dotIndex := RFind(p, '.');
    if dotIndex > sepIndex && exists k :: sepIndex < k < dotIndex && p[k] != '.'
    then (p[..dotIndex], p[dotIndex..])
    else (p, "")
  }

  /** What `splitext` promises of the extension: a non-empty extension is one
      dot followed by no dot and no separator, with a non-dot character before
      it in the final component. */
  lemma SplitextParts(p: string)
    ensures var ext := Splitext(p).1;
      ext == [] || (ext[0] == '.' && forall k :: 1 <= k < |ext| ==> ext[k] != '.' && ext[k] != '/')
    ensures var (stem, ext) := Splitext(p);
      ext != [] ==> exists k :: RFind(stem, '/') < k < |stem| && stem[k] != '.'
  {
    var (stem, ext) := Splitext(p);
    var sepIndex := RFind(p, '/');
    var dotIndex := RFind(p, '.');
    RFindLast(p, '/');
    RFindLast(p, '.');
    if ext != [] {
      assert stem == p[..dotIndex];
      var k :| sepIndex < k < dotIndex && p[k] != '.';
      assert forall m :: 0 <= m < |stem| ==> stem[m] == p[m];
      assert RFind(stem, '/') == sepIndex by {
        RFindPrefix(p, dotIndex, '/');
      }
      assert stem[k] != '.';
    }
  }

  /** Cutting off a tail that does not contain `c` keeps the last `c`. */
  lemma {:induction false} RFindPrefix(p: string, n: nat, c: char)
    requires n <= |p|
    requires RFind(p, c) < n
    ensures RFind(p[..n], c) == RFind(p, c)
    decreases |p| - n
  {
    if n < |p| {
      var q := p[..|p| - 1];
      RFindLast(p, c);
      assert p[|p| - 1] != c;
      assert q[..n] == p[..n];
      RFindPrefix(q, n, c);
    } else {
      assert p[..n] == p;
    }
  }

  /** The usual case: a file name `stem + ".ext"` whose stem has no separator
      and is not made of dots alone splits into exactly those two parts. */
  lemma SplitextOfName(stem: string, ext: string)
    requires forall k :: 0 <= k < |stem| ==> stem[k] != '/'
    requires exists k :: 0 <= k < |stem| && stem[k] != '.'
    requires forall k :: 0 <= k < |ext| ==> ext[k] != '.' && ext[k] != '/'
    ensures Splitext(stem + "." + ext) == (stem, "." + ext)
  {
    var p := stem + "." + ext;
    assert RFind(p, '/') == -1 by {
      forall k | 0 <= k < |p| ensures p[k] != '/' {
        if k > |stem| { assert p[k] == ext[k - |stem| - 1]; }
      }
      RFindIff(p, '/', -1);
    }
    assert RFind(p, '.') == |stem| by {
      assert p[|stem|] == '.';
      forall k | |stem| < k < |p| ensures p[k] != '.' {
        assert p[k] == ext[k - |stem| - 1];
      }
      RFindIff(p, '.', |stem|);
    }
    var k :| 0 <= k < |stem| && stem[k] != '.';
    assert p[k] != '.';
    assert p[..|stem|] == stem;
    assert p[|stem|..] == "." + ext;
  }

  /** A name whose only dot is a leading one has no extension (`.ovpn` stays `.ovpn`). */
  lemma SplitextLeadingDot(ext: string)
    requires forall k :: 0 <= k < |ext| ==> ext[k] != '.' && ext[k] != '/'
    ensures Splitext("." + ext) == ("." + ext, "")
  {
    var p := "." + ext;
    assert RFind(p, '/') == -1 by {
      forall k | 0 <= k < |p| ensures p[k] != '/' {
        if k > 0 { assert p[k] == ext[k - 1]; }
      }
      RFindIff(p, '/', -1);
    }
    assert RFind(p, '.') == 0 by {
      assert p[0] == '.';
      forall k | 0 < k < |p| ensures p[k] != '.' {
        assert p[k] == ext[k - 1];
      }
      RFindIff(p, '.', 0);
    }
  }
}
