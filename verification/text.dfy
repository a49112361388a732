/** String operations the dashboard takes from JavaScript: `trim`,
    `split` on a one-character separator, and the ordering used to sort
    `YYYY-MM-DD` date strings. */
module Text {

  /** The characters `String.prototype.trim` strips: ECMAScript WhiteSpace
      (tab, vertical tab, form feed, space, no-break space, zero-width
      no-break space and the Unicode space separators) and LineTerminator
      (line feed, carriage return, line and paragraph separators). */
  predicate IsWhitespace(c: char) {
    || c == '\t' || c == '\n' || c == '\U{000B}' || c == '\U{000C}' || c == '\r'
    || c == ' ' || c == '\U{00A0}' || c == '\U{1680}'
    || ('\U{2000}' <= c <= '\U{200A}')
    || c == '\U{2028}' || c == '\U{2029}' || c == '\U{202F}' || c == '\U{205F}'
    || c == '\U{3000}' || c == '\U{FEFF}'
  }

  /** True when `s` holds a character other than whitespace. */
  predicate HasContent(s: string) {
    exists k :: 0 <= k < |s| && !IsWhitespace(s[k])
  }

  /** Index of the first non-whitespace character at or after `i`, or `|s|`. */
  function SkipLeading(s: string, i: nat): (r: nat)
    requires i <= |s|
    ensures i <= r <= |s|
    ensures forall k :: i <= k < r ==> IsWhitespace(s[k])
    ensures r < |s| ==> !IsWhitespace(s[r])
    decreases |s| - i
  {
    if i == |s| || !IsWhitespace(s[i]) then i else SkipLeading(s, i + 1)
  }

  /** One past the last non-whitespace character before `j`, or 0. */
  function SkipTrailing(s: string, j: nat): (r: nat)
    requires j <= |s|
    ensures r <= j
    ensures forall k :: r <= k < j ==> IsWhitespace(s[k])
    ensures r > 0 ==> !IsWhitespace(s[r - 1])
  {
    if j == 0 || !IsWhitespace(s[j - 1]) then j else SkipTrailing(s, j - 1)
  }

  /** `String.prototype.trim`: `s` without leading and trailing whitespace. */
  function Trim(s: string): (r: string)
    ensures |r| <= |s|
    ensures |r| > 0 ==> !IsWhitespace(r[0]) && !IsWhitespace(r[|r| - 1])
    ensures r != [] <==> HasContent(s)
    ensures exists i, j :: (
      && 0 <= i <= j <= |s| && r == s[i..j]
      && (forall k :: 0 <= k < i ==> IsWhitespace(s[k]))
      && (forall k :: j <= k < |s| ==> IsWhitespace(s[k])))
  {
    var i := SkipLeading(s, 0);
    var j := SkipTrailing(s, |s|);
    if i < j then s[i..j]
    else
      assert forall k :: 0 <= k < |s| ==> IsWhitespace(s[k]) by {
        assert i == |s|;
      }
      assert s[|s|..|s|] == [];
      []
  }

  /** Trimming is idempotent. */
  lemma TrimIdempotent(s: string)
    ensures Trim(Trim(s)) == Trim(s)
  {
    var t := Trim(s);
    if |t| > 0 {
      assert SkipLeading(t, 0) == 0;
      assert SkipTrailing(t, |t|) == |t|;
      assert t[0..|t|] == t;
    }
  }

  /** `s.split(sep)` for a one-character separator: the pieces between
      separators, so `n` separators give `n + 1` pieces, and the empty
      string gives one empty piece. Joining the pieces back gives `s`. */
  function Split(s: string, sep: char): (r: seq<string>)
    ensures |r| >= 1
    ensures forall i :: 0 <= i < |r| ==> sep !in r[i]
    ensures Join(r, sep) == s
    decreases |s|
  {
    if |s| == 0 then [""]
    else if s[0] == sep then
      var rest := Split(s[1..], sep);
      var r := [""] + rest;
      assert r[1..] == rest;
      assert s == [sep] + s[1..];
      r
    else
      var rest := Split(s[1..], sep);
      var r := [[s[0]] + rest[0]] + rest[1..];
      assert sep !in [s[0]] + rest[0];
      assert r[1..] == rest[1..];
      JoinCons(s[0], rest, sep);
      assert s == [s[0]] + s[1..];
      r
  }

  /** `parts.join(sep)`. */
  function Join(parts: seq<string>, sep: char): string
    requires |parts| >= 1
    decreases |parts|
  {
    if |parts| == 1 then parts[0] else parts[0] + [sep] + Join(parts[1..], sep)
  }

  /** Prefixing the first piece prefixes the joined string. */
  lemma JoinCons(c: char, parts: seq<string>, sep: char)
    requires |parts| >= 1
    ensures Join([[c] + parts[0]] + parts[1..], sep) == [c] + Join(parts, sep)
  {
    var q := [[c] + parts[0]] + parts[1..];
    if |parts| > 1 {
      assert q[1..] == parts[1..];
    }
  }

  /** Splitting a joined list of separator-free pieces gives the pieces back. */
  lemma {:induction false} SplitJoin(parts: seq<string>, sep: char)
    requires |parts| >= 1
    requires forall i :: 0 <= i < |parts| ==> sep !in parts[i]
    ensures Split(Join(parts, sep), sep) == parts
    decreases |parts|, |parts[0]|
  {
    var p0 := parts[0];
    if |p0| == 0 {
      if |parts| == 1 {
        assert Join(parts, sep) == "";
      } else {
        var tail := Join(parts[1..], sep);
        assert Join(parts, sep) == [sep] + tail;
        assert ([sep] + tail)[1..] == tail;
        SplitJoin(parts[1..], sep);
        assert [""] + parts[1..] == parts;
      }
    } else {
      var shorter := [p0[1..]] + parts[1..];
      assert shorter[1..] == parts[1..];
      assert sep !in p0[1..] by {
        forall k | 0 <= k < |p0[1..]| ensures p0[1..][k] != sep {
          assert p0[1..][k] == p0[k + 1];
        }
      }
      SplitJoin(shorter, sep);
      JoinCons(p0[0], shorter, sep);
      assert [p0[0]] + shorter[0] == p0;
      assert [[p0[0]] + shorter[0]] + shorter[1..] == parts;
      var s := Join(parts, sep);
      assert s == [p0[0]] + Join(shorter, sep);
      assert s[0] == p0[0] && s[0] != sep;
      assert s[1..] == Join(shorter, sep);
      var rest := Split(s[1..], sep);
      assert rest == shorter;
      assert [[s[0]] + rest[0]] + rest[1..] == parts;
    }
  }

  /** Strict lexicographic order on strings by character code. For
      `YYYY-MM-DD` dates it coincides with chronological order. */
  predicate LexLess(a: string, b: string)
    decreases |a|
  {
    if |a| == 0 then |b| > 0
    else if |b| == 0 then false
    else if a[0] != b[0] then a[0] < b[0]
    else LexLess(a[1..], b[1..])
  }

  lemma {:induction false} LexIrreflexive(a: string)
    ensures !LexLess(a, a)
    decreases |a|
  {
    if |a| > 0 {
      LexIrreflexive(a[1..]);
    }
  }

  lemma {:induction false} LexAsymmetric(a: string, b: string)
    requires LexLess(a, b)
    ensures !LexLess(b, a)
    decreases |a|
  {
    if |a| > 0 && |b| > 0 && a[0] == b[0] {
      LexAsymmetric(a[1..], b[1..]);
    }
  }

  lemma {:induction false} LexTransitive(a: string, b: string, c: string)
    requires LexLess(a, b) && LexLess(b, c)
    ensures LexLess(a, c)
    decreases |a|
  {
    if |a| > 0 && |b| > 0 && |c| > 0 && a[0] == b[0] && b[0] == c[0] {
      LexTransitive(a[1..], b[1..], c[1..]);
    }
  }

  lemma {:induction false} LexTotal(a: string, b: string)
    requires a != b
    ensures LexLess(a, b) || LexLess(b, a)
    decreases |a|
  {
    if |a| > 0 && |b| > 0 && a[0] == b[0] {
      assert a == [a[0]] + a[1..] && b == [b[0]] + b[1..];
      LexTotal(a[1..], b[1..]);
    }
  }
}
