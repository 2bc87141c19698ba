/**
 * The JavaScript string built-ins the key-binding overlay relies on, with
 * their ECMAScript semantics: `indexOf` of a substring, `split` and `join`
 * with a non-empty separator, `replace` of the first occurrence of a literal
 * pattern, and `trim`.
 */
module Strings {
  import opened Wrappers

  /** `pat` occurs in `s` starting at index `i`. */
  predicate MatchAt(s: string, pat: string, i: nat)
  {
    i + |pat| <= |s| && s[i..i + |pat|] == pat
  }

  /** The first index at or after `from` where `pat` occurs in `s`. */
  function FindFrom(s: string, pat: string, from: nat): (r: Option<nat>)
    requires from <= |s|
    decreases |s| - from
    ensures r.Some? ==> from <= r.value && MatchAt(s, pat, r.value)
    ensures r.Some? ==> forall j: nat :: from <= j < r.value ==> !MatchAt(s, pat, j)
    ensures r.None? ==> forall j: nat :: from <= j ==> !MatchAt(s, pat, j)
  {
    if MatchAt(s, pat, from) then Some(from)
    else if from + |pat| >= |s| then None
    else FindFrom(s, pat, from + 1)
  }

  /** `s.indexOf(pat)`, with `None` for JavaScript's -1. */
  function FindFirst(s: string, pat: string): (r: Option<nat>)
    ensures r.Some? ==> MatchAt(s, pat, r.value)
    ensures r.Some? ==> forall j: nat :: j < r.value ==> !MatchAt(s, pat, j)
    ensures r.None? ==> forall j: nat :: !MatchAt(s, pat, j)
  {
    FindFrom(s, pat, 0)
  }

  /** A match that ends inside `a` is a match in `a + b`, and conversely. */
  lemma MatchAtPrefix(a: string, b: string, pat: string, j: nat)
    requires j + |pat| <= |a|
    ensures MatchAt(a + b, pat, j) <==> MatchAt(a, pat, j)
  {
  }

  /** Appending text never moves the first occurrence already present. */
  lemma FindFirstPrefix(a: string, b: string, pat: string)
    requires FindFirst(a, pat).Some?
    ensures FindFirst(a + b, pat) == FindFirst(a, pat)
  {
    var k := FindFirst(a, pat).value;
    MatchAtPrefix(a, b, pat, k);
    var r := FindFirst(a + b, pat);
    assert r.Some?;
    if r.value < k {
      MatchAtPrefix(a, b, pat, r.value);
    }
  }

  /** `s.split(sep)` for a non-empty separator. */
  function Split(s: string, sep: string): (r: seq<string>)
    requires |sep| > 0
    decreases |s|
    ensures |r| >= 1
  {
    match FindFirst(s, sep)
    case None => [s]
    case Some(i) => [s[..i]] + Split(s[i + |sep|..], sep)
  }

  /** `parts.join(sep)`. */
  function Join(parts: seq<string>, sep: string): string
  {
    if |parts| == 0 then ""
    else if |parts| == 1 then parts[0]
    else parts[0] + sep + Join(parts[1..], sep)
  }

  /** Joining the pieces of a split with the same separator gives back the string. */
  lemma {:induction false} JoinSplit(s: string, sep: string)
    requires |sep| > 0
    ensures Join(Split(s, sep), sep) == s
    decreases |s|
  {
    var f := FindFirst(s, sep);
    if f.Some? {
      var i := f.value;
      var rest := s[i + |sep|..];
      var tail := Split(rest, sep);
      assert Split(s, sep) == [s[..i]] + tail;
      assert ([s[..i]] + tail)[1..] == tail;
      JoinSplit(rest, sep);
      assert Join(Split(s, sep), sep) == s[..i] + sep + rest;
      assert s == s[..i] + s[i..i + |sep|] + rest;
    }
  }

  /** No piece of a split contains the separator. */
  lemma {:induction false} SplitPiecesFree(s: string, sep: string)
    requires |sep| > 0
    ensures forall p :: p in Split(s, sep) ==> FindFirst(p, sep).None?
    decreases |s|
  {
    var f := FindFirst(s, sep);
    if f.Some? {
      var i := f.value;
      var rest := s[i + |sep|..];
      var tail := Split(rest, sep);
      assert Split(s, sep) == [s[..i]] + tail;
      SplitPiecesFree(rest, sep);
      var head := s[..i];
      forall j: nat ensures !MatchAt(head, sep, j) {
        if j + |sep| <= |head| {
          assert head + s[i..] == s;
          MatchAtPrefix(head, s[i..], sep, j);
        }
      }
    }
  }

  /** `sep` appended to `p` is the first occurrence of `sep` in `p + sep`. */
  predicate EndsAtSeparator(p: string, sep: string)
  {
    FindFirst(p + sep, sep) == Some(|p|)
  }

  /**
   * Splitting a join gives back the pieces, when no piece but the last runs
   * into the separator that follows it and the last piece holds none.
   */
  lemma {:induction false} SplitJoin(parts: seq<string>, sep: string)
    requires |sep| > 0 && |parts| >= 1
    requires forall k :: 0 <= k < |parts| - 1 ==> EndsAtSeparator(parts[k], sep)
    requires FindFirst(parts[|parts| - 1], sep).None?
    ensures Split(Join(parts, sep), sep) == parts
    decreases |parts|
  {
    if |parts| > 1 {
      var p := parts[0];
      var tail := parts[1..];
      var rest := Join(tail, sep);
      var s := p + sep + rest;
      assert EndsAtSeparator(p, sep);
      FindFirstPrefix(p + sep, rest, sep);
      assert Join(parts, sep) == s;
      assert FindFirst(s, sep) == Some(|p|);
      assert s[..|p|] == p;
      assert s[|p| + |sep|..] == rest;
      assert Split(s, sep) == [p] + Split(rest, sep);
      assert tail[|tail| - 1] == parts[|parts| - 1];
      assert forall k :: 0 <= k < |tail| - 1 ==> tail[k] == parts[k + 1];
      SplitJoin(tail, sep);
    }
  }

  /** Splitting on a one-character separator `[c]` a string free of `c` gives the string alone. */
  lemma SplitNoSeparator(a: string, c: char)
    requires c !in a
    ensures Split(a, [c]) == [a]
  {
    NoCharNoMatch(a, c);
  }

  /** Splitting `a + [c] + b` on `[c]`, with `a` free of `c`, cuts exactly after `a`. */
  lemma SplitAtFirst(a: string, b: string, c: char)
    requires c !in a
    ensures Split(a + [c] + b, [c]) == [a] + Split(b, [c])
  {
    var s := a + [c] + b;
    EndsAtCharSeparator(a, c);
    FindFirstPrefix(a + [c], b, [c]);
    assert FindFirst(s, [c]) == Some(|a|);
    assert s[..|a|] == a;
    assert s[|a| + 1..] == b;
  }

  /** `p` holds no occurrence of the one-character string `[c]` exactly when `c !in p`. */
  lemma NoCharNoMatch(p: string, c: char)
    ensures FindFirst(p, [c]).None? <==> c !in p
  {
    if c in p {
      var k :| 0 <= k < |p| && p[k] == c;
      assert MatchAt(p, [c], k);
    } else {
      forall j: nat ensures !MatchAt(p, [c], j) {
        if j + 1 <= |p| {
          assert p[j..j + 1][0] == p[j];
        }
      }
    }
  }

  /** A piece without `c` ends at the one-character separator `[c]` appended to it. */
  lemma EndsAtCharSeparator(p: string, c: char)
    requires c !in p
    ensures EndsAtSeparator(p, [c])
  {
    var s := p + [c];
    assert MatchAt(s, [c], |p|);
    forall j: nat | j < |p| ensures !MatchAt(s, [c], j) {
      assert s[j..j + 1][0] == p[j];
    }
  }

  /** A piece without `'+'` holds no `" + "` and ends at a `" + "` appended to it. */
  lemma EndsAtSpacedPlus(p: string)
    requires '+' !in p
    ensures FindFirst(p, " + ").None?
    ensures EndsAtSeparator(p, " + ")
  {
    forall j: nat ensures !MatchAt(p, " + ", j) {
      if j + 3 <= |p| {
        assert p[j..j + 3][1] == p[j + 1];
      }
    }
    var s := p + " + ";
    assert MatchAt(s, " + ", |p|);
    forall j: nat | j < |p| ensures !MatchAt(s, " + ", j) {
      assert s[j..j + 3][1] == s[j + 1];
      assert s[|p|] == ' ';
      if j + 1 < |p| {
        assert s[j + 1] == p[j + 1];
      }
    }
  }

  /** `s.replace(pat, rep)` for a literal pattern: only the first occurrence is replaced. */
  function ReplaceFirst(s: string, pat: string, rep: string): string
  {
    match FindFirst(s, pat)
    case None => s
    case Some(i) => s[..i] + rep + s[i + |pat|..]
  }

  /**
   * The code points ECMAScript's `trim` removes: WhiteSpace (tab, vertical
   * tab, form feed, space, no-break space, zero-width no-break space and the
   * Unicode space separators) and LineTerminator (line feed, carriage return,
   * line and paragraph separators).
   */
  predicate IsTrimmable(c: char)
  {
    var n := c as int;
    (0x09 <= n <= 0x0D) || n == 0x20 || n == 0xA0 || n == 0x1680
    || (0x2000 <= n <= 0x200A) || n == 0x2028 || n == 0x2029
    || n == 0x202F || n == 0x205F || n == 0x3000 || n == 0xFEFF
  }

  /** `s` with its leading trimmable characters removed. */
  function TrimStart(s: string): (r: string)
    ensures |r| <= |s| && r == s[|s| - |r|..]
    ensures forall k :: 0 <= k < |s| - |r| ==> IsTrimmable(s[k])
    ensures |r| > 0 ==> !IsTrimmable(r[0])
  {
    if |s| > 0 && IsTrimmable(s[0]) then TrimStart(s[1..]) else s
  }

  /** `s` with its trailing trimmable characters removed. */
  function TrimEnd(s: string): (r: string)
    ensures |r| <= |s| && r == s[..|r|]
    ensures forall k :: |r| <= k < |s| ==> IsTrimmable(s[k])
    ensures |r| > 0 ==> !IsTrimmable(r[|r| - 1])
  {
    if |s| > 0 && IsTrimmable(s[|s| - 1]) then TrimEnd(s[..|s| - 1]) else s
  }

  /** `r` is the slice of `s` at `i`, and only trimmable characters lie around it. */
  predicate TrimmedSliceAt(s: string, r: string, i: nat)
  {
    i + |r| <= |s| && s[i..i + |r|] == r
    && (forall k :: 0 <= k < i ==> IsTrimmable(s[k]))
    && (forall k :: i + |r| <= k < |s| ==> IsTrimmable(s[k]))
  }

  /**
   * `s.trim()`: the slice of `s` left after dropping trimmable characters at
   * both ends; it neither begins nor ends with one.
   */
  function Trim(s: string): (r: string)
    ensures exists i :: TrimmedSliceAt(s, r, i)
    ensures |r| > 0 ==> !IsTrimmable(r[0]) && !IsTrimmable(r[|r| - 1])
  {
    var t := TrimStart(s);
    var r := TrimEnd(t);
    TrimmedSlice(s, t, r);
    r
  }

  /** The two trims compose into a slice of `s` with only trimmable characters around it. */
  lemma TrimmedSlice(s: string, t: string, r: string)
    requires |t| <= |s| && t == s[|s| - |t|..]
    requires forall k :: 0 <= k < |s| - |t| ==> IsTrimmable(s[k])
    requires |r| <= |t| && r == t[..|r|]
    requires forall k :: |r| <= k < |t| ==> IsTrimmable(t[k])
    ensures TrimmedSliceAt(s, r, |s| - |t|)
  {
  }

  /** Trimming twice is trimming once. */
  lemma TrimIdempotent(s: string)
    ensures Trim(Trim(s)) == Trim(s)
  {
    var r := Trim(s);
    assert TrimStart(r) == r;
    assert TrimEnd(r) == r;
  }
}
