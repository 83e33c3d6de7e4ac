/**
  The PHP string built-ins the formatter relies on: `explode` and `implode`
  with a one-character delimiter, `trim` with its default character list, and
  `strtolower`.  A Dafny `string` stands for UTF-8 text; every operation here
  looks only at ASCII characters, and in UTF-8 an ASCII byte never occurs
  inside a multi-byte character, so acting on whole characters is the same as
  PHP acting on bytes.
 */
module Text {

  /**
    `implode(sep, parts)`: the parts with one `sep` between neighbours.  No
    parts give the empty string; otherwise the result starts with the first
    part.
   */
  function Join(parts: seq<string>, sep: char): (r: string)
    ensures |parts| == 0 ==> r == ""
    ensures |parts| >= 1 ==> parts[0] <= r
  {
    if |parts| == 0 then ""
    else if |parts| == 1 then parts[0]
    else parts[0] + [sep] + Join(parts[1..], sep)
  }

  /**
    `explode(sep, s)`: the maximal pieces of `s` between occurrences of `sep`.
    There is always at least one piece (`explode(',', '')` is `['']`), the
    pieces are free of `sep`, and putting them back together gives `s`.
   */
  function Split(s: string, sep: char): (r: seq<string>)
    ensures |r| >= 1
    ensures forall i | 0 <= i < |r| :: sep !in r[i]
    ensures Join(r, sep) == s
    decreases |s|
  {
    if |s| == 0 then [""]
    else
      var rest := Split(s[1..], sep);
      if s[0] == sep then
        assert s == [sep] + s[1..];
        [""] + rest
      else
        var r := [[s[0]] + rest[0]] + rest[1..];
        assert r[1..] == rest[1..];
        assert s == [s[0]] + s[1..];
        if |rest| == 1 then r
        else
          assert Join(rest, sep) == rest[0] + [sep] + Join(rest[1..], sep);
          r
  }

  lemma {:induction false} SplitPrefix(p: string, sep: char, rest: string)
    requires sep !in p
    ensures Split(p + [sep] + rest, sep) == [p] + Split(rest, sep)
    decreases |p|
  {
    if |p| == 0 {
      assert p + [sep] + rest == [sep] + rest;
      assert ([sep] + rest)[1..] == rest;
    } else {
      var s := p + [sep] + rest;
      assert s[1..] == p[1..] + [sep] + rest;
      SplitPrefix(p[1..], sep, rest);
      assert [p[0]] + p[1..] == p;
    }
  }

  /** `explode` undoes `implode` whenever no part contains the delimiter. */
  lemma {:induction false} SplitJoin(parts: seq<string>, sep: char)
    requires |parts| >= 1
    requires forall i | 0 <= i < |parts| :: sep !in parts[i]
    ensures Split(Join(parts, sep), sep) == parts
    decreases |parts|
  {
    if |parts| == 1 {
      SplitNoSep(parts[0], sep);
    } else {
      SplitJoin(parts[1..], sep);
      SplitPrefix(parts[0], sep, Join(parts[1..], sep));
      assert [parts[0]] + parts[1..] == parts;
    }
  }

  /** A string without the delimiter explodes to itself alone. */
  lemma {:induction false} SplitNoSep(s: string, sep: char)
    requires sep !in s
    ensures Split(s, sep) == [s]
    decreases |s|
  {
    if |s| > 0 {
      SplitNoSep(s[1..], sep);
      assert [s[0]] + s[1..] == s;
    }
  }

  /** One part is joined to itself. */
  lemma JoinSingle(p: string, sep: char)
    ensures Join([p], sep) == p
  {
  }

  /**
    Joining two non-empty lists one after the other is joining each and
    putting one separator between them; with `JoinSingle` this determines
    `Join` on every list, whatever its parts hold.
   */
  lemma {:induction false} JoinAppend(a: seq<string>, b: seq<string>, sep: char)
    requires |a| >= 1 && |b| >= 1
    ensures Join(a + b, sep) == Join(a, sep) + [sep] + Join(b, sep)
    decreases |a|
  {
    if |a| == 1 {
      assert (a + b)[1..] == b;
    } else {
      assert (a + b)[1..] == a[1..] + b;
      JoinAppend(a[1..], b, sep);
    }
  }

  /** Two parts joined are the parts with one separator between them. */
  lemma JoinTwo(a: string, b: string, sep: char)
    ensures Join([a, b], sep) == a + [sep] + b
  {
    assert [a, b][1..] == [b];
  }

  /** A character that is neither the delimiter nor in any part is not in the joined string. */
  lemma {:induction false} NotInJoin(parts: seq<string>, sep: char, c: char)
    requires c != sep
    requires forall i | 0 <= i < |parts| :: c !in parts[i]
    ensures c !in Join(parts, sep)
    decreases |parts|
  {
    if |parts| > 1 {
      NotInJoin(parts[1..], sep, c);
    }
  }

  /** The characters PHP's `trim` strips by default: space, tab, LF, CR, NUL and vertical tab. */
  predicate IsTrimChar(c: char)
  {
    c == ' ' || c == '\t' || c == '\n' || c == '\r' || c == '\0' || c == '\U{0B}'
  }

  /** Every character of `s` is one that `trim` strips. */
  predicate AllTrimChars(s: string)
  {
    forall i | 0 <= i < |s| :: IsTrimChar(s[i])
  }

  /** `s` neither starts nor ends with a character that `trim` strips. */
  predicate IsTrimmed(s: string)
  {
    |s| == 0 || (!IsTrimChar(s[0]) && !IsTrimChar(s[|s| - 1]))
  }

  /** The positions before `lo` and from `hi` on hold only characters that `trim` strips. */
  predicate PaddedOutside(s: string, lo: nat, hi: nat)
  {
    && lo <= hi <= |s|
    && (forall j | 0 <= j < lo :: IsTrimChar(s[j]))
    && (forall j | hi <= j < |s| :: IsTrimChar(s[j]))
  }

  /** The first position at or after `from` that holds a character `trim` keeps, or `|s|`. */
  function SkipLeading(s: string, from: nat): (n: nat)
    requires from <= |s|
    ensures from <= n <= |s|
    ensures forall j | from <= j < n :: IsTrimChar(s[j])
    ensures n < |s| ==> !IsTrimChar(s[n])
    decreases |s| - from
  {
    if from < |s| && IsTrimChar(s[from]) then SkipLeading(s, from + 1) else from
  }

  /** The least `n` in `lo..hi` such that `s[n..hi]` is all trim characters. */
  function SkipTrailing(s: string, lo: nat, hi: nat): (n: nat)
    requires lo <= hi <= |s|
    ensures lo <= n <= hi
    ensures forall j | n <= j < hi :: IsTrimChar(s[j])
    ensures n > lo ==> !IsTrimChar(s[n - 1])
    decreases hi - lo
  {
    if hi > lo && IsTrimChar(s[hi - 1]) then SkipTrailing(s, lo, hi - 1) else hi
  }

  lemma {:induction false} SkipLeadingIs(s: string, from: nat, n: nat)
    requires from <= n <= |s|
    requires forall j | from <= j < n :: IsTrimChar(s[j])
    requires n < |s| ==> !IsTrimChar(s[n])
    ensures SkipLeading(s, from) == n
    decreases n - from
  {
    if from < n {
      SkipLeadingIs(s, from + 1, n);
    }
  }

  lemma {:induction false} SkipTrailingIs(s: string, lo: nat, hi: nat, n: nat)
    requires lo <= n <= hi <= |s|
    requires forall j | n <= j < hi :: IsTrimChar(s[j])
    requires n > lo ==> !IsTrimChar(s[n - 1])
    ensures SkipTrailing(s, lo, hi) == n
    decreases hi - n
  {
    if n < hi {
      SkipTrailingIs(s, lo, hi - 1, n);
    }
  }

  /** Where the text that `trim` keeps starts. */
  function TrimStart(s: string): (n: nat)
  {
    SkipLeading(s, 0)
  }

  /**
    `trim(s)`: the part of `s` between a leading and a trailing run of trim
    characters; it neither starts nor ends with one.
   */
  function Trim(s: string): (r: string)
    ensures IsTrimmed(r)
    ensures TrimStart(s) + |r| <= |s| && r == s[TrimStart(s)..TrimStart(s) + |r|]
    ensures PaddedOutside(s, TrimStart(s), TrimStart(s) + |r|)
  {
    var lo := SkipLeading(s, 0);
    var hi := SkipTrailing(s, lo, |s|);
    s[lo..hi]
  }

  /**
    `trim` is determined by its contract: whatever is wrapped in runs of trim
    characters, and does not itself start or end with one, is what `trim`
    gives back.
   */
  lemma TrimOfPadded(a: string, m: string, b: string)
    requires AllTrimChars(a) && AllTrimChars(b) && IsTrimmed(m)
    ensures Trim(a + m + b) == m
  {
    var s := a + m + b;
    if |m| == 0 {
      assert forall j | 0 <= j < |s| :: IsTrimChar(s[j]) by {
        assert forall j | 0 <= j < |a| :: s[j] == a[j];
        assert forall j | |a| <= j < |s| :: s[j] == b[j - |a|];
      }
      SkipLeadingIs(s, 0, |s|);
      SkipTrailingIs(s, |s|, |s|, |s|);
    } else {
      assert forall j | 0 <= j < |a| :: s[j] == a[j];
      assert s[|a|] == m[0];
      SkipLeadingIs(s, 0, |a|);
      var hi := |a| + |m|;
      assert forall j | hi <= j < |s| :: s[j] == b[j - hi];
      assert s[hi - 1] == m[|m| - 1];
      SkipTrailingIs(s, |a|, |s|, hi);
      assert s[|a|..hi] == m;
    }
  }

  /** A string is left alone by `trim` exactly when it has no trim character at either end. */
  lemma TrimFixedPoint(s: string)
    ensures Trim(s) == s <==> IsTrimmed(s)
  {
    if IsTrimmed(s) {
      TrimOfPadded("", s, "");
      assert "" + s + "" == s;
    }
  }

  /** `trim` is idempotent. */
  lemma TrimIdempotent(s: string)
    ensures Trim(Trim(s)) == Trim(s)
  {
    TrimFixedPoint(Trim(s));
  }

  predicate IsUpper(c: char)
  {
    'A' <= c <= 'Z'
  }

  /** `s` has no ASCII upper-case letter. */
  predicate IsLower(s: string)
  {
    forall i | 0 <= i < |s| :: !IsUpper(s[i])
  }

  function LowerChar(c: char): (r: char)
    ensures !IsUpper(r)
    ensures IsUpper(c) ==> r as int == c as int + 32
    ensures !IsUpper(c) ==> r == c
  {
    if IsUpper(c) then (c as int + 32) as char else c
  }

  /**
    `strtolower(s)` as PHP 8.2 and later (or the C locale) define it: ASCII `A`..`Z` become
    `a`..`z`, every other character is kept in place.
   */
  function ToLower(s: string): (r: string)
    ensures |r| == |s|
    ensures IsLower(r)
    ensures forall i | 0 <= i < |s| :: r[i] == s[i] || (IsUpper(s[i]) && r[i] as int == s[i] as int + 32)
  {
    seq(|s|, i requires 0 <= i < |s| => LowerChar(s[i]))
  }

  /** Lower-casing leaves a string alone exactly when it is already lower-case. */
  lemma ToLowerFixedPoint(s: string)
    ensures ToLower(s) == s <==> IsLower(s)
  {
    if IsLower(s) {
      assert forall i | 0 <= i < |s| :: ToLower(s)[i] == s[i];
    }
  }

  /** `strtolower` is idempotent. */
  lemma ToLowerIdempotent(s: string)
    ensures ToLower(ToLower(s)) == ToLower(s)
  {
    ToLowerFixedPoint(ToLower(s));
  }
}
