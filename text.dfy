/** String operations of Python's `str` that the loader and the term lookup
    rely on: `split` with a one-character separator, `split` with a
    two-character separator and a maximum of one split, `join`, `strip`
    and `rstrip`. */
module Text {

  datatype Option<+T> = None | Some(value: T)

  /** Python's `str.isspace` for a single character (the characters
      `str.strip()` and `str.rstrip()` remove when given no argument). */
  predicate IsSpace(c: char)
  {
    || ('\t' <= c <= '\r')
    || ('\U{1c}' <= c <= ' ')
    || c == '\U{85}' || c == '\U{a0}' || c == '\U{1680}'
    || ('\U{2000}' <= c <= '\U{200a}')
    || c == '\U{2028}' || c == '\U{2029}' || c == '\U{202f}'
    || c == '\U{205f}' || c == '\U{3000}'
  }

  /** Every character of `s` is whitespace. */
  predicate AllSpace(s: string)
  {
    forall k :: 0 <= k < |s| ==> IsSpace(s[k])
  }

  /** `s.rstrip()`: the longest prefix of `s` that does not end in whitespace. */
  function Rstrip(s: string): (r: string)
    ensures r <= s
    ensures r == [] || !IsSpace(r[|r| - 1])
  {
    if s == [] || !IsSpace(s[|s| - 1]) then s else Rstrip(s[..|s| - 1])
  }

  /** What `rstrip` removes is whitespace only. */
  lemma {:induction false} RstripRemovesSpace(s: string)
    ensures AllSpace(s[|Rstrip(s)|..])
    decreases |s|
  {
    if s != [] && IsSpace(s[|s| - 1]) {
      RstripRemovesSpace(s[..|s| - 1]);
      assert s[|Rstrip(s)|..] == s[..|s| - 1][|Rstrip(s)|..] + [s[|s| - 1]];
    }
  }

  /** Stripping a string without surrounding whitespace changes nothing, and
      trailing whitespace is dropped. */
  lemma StripTrimmed(w: string, tail: string)
    requires w != [] && !IsSpace(w[0]) && !IsSpace(w[|w| - 1]) && AllSpace(tail)
    ensures Rstrip(w + tail) == w && Strip(w + tail) == w
    decreases |tail|
  {
    if tail != [] {
      var s := w + tail;
      assert s[..|s| - 1] == w + tail[..|tail| - 1];
      assert IsSpace(tail[|tail| - 1]);
      StripTrimmed(w, tail[..|tail| - 1]);
    } else {
      assert w + tail == w;
    }
  }

  /** `s.lstrip()`: the longest suffix of `s` that does not start with whitespace. */
  function Lstrip(s: string): (r: string)
    ensures |r| <= |s| && r == s[|s| - |r|..]
    ensures r == [] || !IsSpace(r[0])
  {
    if s == [] || !IsSpace(s[0]) then s else Lstrip(s[1..])
  }

  /** What `lstrip` removes is whitespace only. */
  lemma {:induction false} LstripRemovesSpace(s: string)
    ensures AllSpace(s[..|s| - |Lstrip(s)|])
    decreases |s|
  {
    if s != [] && IsSpace(s[0]) {
      LstripRemovesSpace(s[1..]);
      assert s[..|s| - |Lstrip(s)|] == [s[0]] + s[1..][..|s| - 1 - |Lstrip(s)|];
    }
  }

  /** `s.strip()`. */
  function Strip(s: string): (r: string)
    ensures |r| <= |s|
    ensures r == [] || (!IsSpace(r[0]) && !IsSpace(r[|r| - 1]))
  {
    Lstrip(Rstrip(s))
  }

  /** Position of the first occurrence of `c` in `s`. */
  function IndexOf(s: string, c: char): (r: Option<nat>)
    ensures r.Some? ==> r.value < |s| && s[r.value] == c && c !in s[..r.value]
    ensures r.None? <==> c !in s
  {
    if s == [] then None
    else if s[0] == c then Some(0)
    else match IndexOf(s[1..], c)
      case None => None
      case Some(i) => Some(i + 1)
  }

  /** `s.split(sep)` for a one-character separator: the pieces between the
      occurrences of `sep`; there is always at least one piece. */
  function Split(s: string, sep: char): (parts: seq<string>)
    ensures |parts| >= 1
    ensures NoSeparator(parts, sep)
    decreases |s|
  {
    match IndexOf(s, sep)
    case None => [s]
    case Some(i) => [s[..i]] + Split(s[i + 1..], sep)
  }

  /** `sep.join(parts)` for a one-character separator. */
  function Join(parts: seq<string>, sep: char): string
  {
    if |parts| == 0 then ""
    else if |parts| == 1 then parts[0]
    else parts[0] + [sep] + Join(parts[1..], sep)
  }

  /** Every piece is free of the separator. */
  predicate NoSeparator(parts: seq<string>, sep: char)
  {
    forall k :: 0 <= k < |parts| ==> sep !in parts[k]
  }

  /** Splitting a joined list gives the list back, provided it is not empty
      and no piece contains the separator. */
  lemma {:induction false} SplitJoin(parts: seq<string>, sep: char)
    requires |parts| >= 1
    ensures NoSeparator(parts, sep) ==> Split(Join(parts, sep), sep) == parts
  {
    if !NoSeparator(parts, sep) {
    } else if |parts| > 1 {
      var s := Join(parts, sep);
      assert s == parts[0] + [sep] + Join(parts[1..], sep);
      IndexOfPrefix(parts[0], sep, Join(parts[1..], sep));
      assert s[..|parts[0]|] == parts[0];
      assert s[|parts[0]| + 1..] == Join(parts[1..], sep);
      SplitJoin(parts[1..], sep);
    } else {
      assert IndexOf(parts[0], sep).None?;
    }
  }

  lemma IndexOfPrefix(a: string, sep: char, b: string)
    requires sep !in a
    ensures IndexOf(a + [sep] + b, sep) == Some(|a|)
  {
    var s := a + [sep] + b;
    assert s[|a|] == sep;
    assert s[..|a|] == a;
  }

  /** Joining the pieces of a split gives the string back. */
  lemma {:induction false} JoinSplit(s: string, sep: char)
    ensures Join(Split(s, sep), sep) == s
    decreases |s|
  {
    match IndexOf(s, sep)
    case None =>
      assert Split(s, sep) == [s];
    case Some(i) =>
      var rest := Split(s[i + 1..], sep);
      assert |rest| >= 1;
      var parts := [s[..i]] + rest;
      assert Split(s, sep) == parts;
      assert |parts| >= 2 && parts[0] == s[..i] && parts[1..] == rest;
      assert Join(parts, sep) == s[..i] + [sep] + Join(rest, sep);
      JoinSplit(s[i + 1..], sep);
      assert s == s[..i] + [sep] + s[i + 1..];
  }

  /** A joined string is empty exactly when the list is empty or holds only
      the empty string. */
  lemma JoinEmpty(parts: seq<string>, sep: char)
    ensures Join(parts, sep) == "" <==> parts == [] || parts == [""]
  {
    if |parts| > 1 {
      assert |Join(parts, sep)| >= 1;
    }
  }

  /** Whether `pat` occurs in `s` starting at position `i`. */
  predicate OccursAt(s: string, pat: string, i: nat)
  {
    i + |pat| <= |s| && s[i..i + |pat|] == pat
  }

  /** Position of the first occurrence of `pat` in `s` at or after `from`. */
  function FindFrom(s: string, pat: string, from: nat): (r: Option<nat>)
    ensures r.Some? ==> from <= r.value && r.value + |pat| <= |s|
    decreases |s| - from
  {
    if from + |pat| > |s| then None
    else if s[from..from + |pat|] == pat then Some(from)
    else FindFrom(s, pat, from + 1)
  }

  /** `FindFrom` finds an occurrence, and no earlier one; `None` means there
      is none at all from `from` on. */
  lemma {:induction false} FindFromFirst(s: string, pat: string, from: nat)
    ensures FindFrom(s, pat, from).Some? ==> OccursAt(s, pat, FindFrom(s, pat, from).value)
    ensures FindFrom(s, pat, from).Some? ==>
              forall j :: from <= j < FindFrom(s, pat, from).value ==> !OccursAt(s, pat, j)
    ensures FindFrom(s, pat, from).None? ==> forall j :: from <= j ==> !OccursAt(s, pat, j)
    decreases |s| - from
  {
    if from + |pat| <= |s| && s[from..from + |pat|] != pat {
      FindFromFirst(s, pat, from + 1);
    }
  }

  /** `pat` occurs somewhere in `s`. */
  predicate Occurs(s: string, pat: string)
  {
    exists j :: 0 <= j <= |s| && OccursAt(s, pat, j)
  }

  /** `i` is the position of the first occurrence of `pat` in `s`. */
  predicate FirstOccurrence(s: string, pat: string, i: nat)
  {
    OccursAt(s, pat, i) && forall j :: 0 <= j < i ==> !OccursAt(s, pat, j)
  }

  /** `s.split(pat, 1)` unpacked into exactly two values: the text before the
      first occurrence of `pat` and the text after it, or `None` where the
      unpacking fails because `pat` does not occur. */
  function SplitOnce(s: string, pat: string): Option<(string, string)>
  {
    match FindFrom(s, pat, 0)
    case None => None
    case Some(i) => Some((s[..i], s[i + |pat|..]))
  }

  /** `SplitOnce` fails exactly when `pat` does not occur, and otherwise
      cuts `s` around the first occurrence. */
  lemma SplitOnceCharacterized(s: string, pat: string)
    ensures SplitOnce(s, pat).None? <==> !Occurs(s, pat)
    ensures SplitOnce(s, pat).Some? ==>
              var (a, b) := SplitOnce(s, pat).value;
              s == a + pat + b && FirstOccurrence(s, pat, |a|)
  {
    FindFromFirst(s, pat, 0);
    match FindFrom(s, pat, 0)
    case None =>
    case Some(i) =>
      assert s == s[..i] + s[i..i + |pat|] + s[i + |pat|..];
  }

  /** `SplitOnce` cuts at the first occurrence, and only there. */
  lemma SplitOnceAt(s: string, pat: string, a: string, b: string)
    requires s == a + pat + b
    requires forall j :: 0 <= j < |a| ==> !OccursAt(s, pat, j)
    ensures SplitOnce(s, pat) == Some((a, b))
  {
    assert s[|a|..|a| + |pat|] == pat;
    assert OccursAt(s, pat, |a|);
    SplitOnceCharacterized(s, pat);
    var r := SplitOnce(s, pat);
    assert r.Some?;
    assert |r.value.0| == |a|;
    assert r.value.0 == s[..|a|] == a;
    assert r.value.1 == s[|a| + |pat|..] == b;
  }
}
