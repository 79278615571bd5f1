/**
 * The JavaScript string operations the source relies on, over `seq<char>`:
 * `indexOf`, `includes`, `split` with a non-empty separator, `join`,
 * `trim`, `startsWith`, `endsWith`, `slice(n)`, and the decimal rendering
 * and parsing of non-negative integers.
 */
module JsString {
  import opened Wrappers

  /** `s.startsWith(p)`. */
  predicate StartsWith(s: string, p: string) {
    |p| <= |s| && s[..|p|] == p
  }

  /** `s.endsWith(p)`. */
  predicate EndsWith(s: string, p: string) {
    |p| <= |s| && s[|s| - |p|..] == p
  }

  lemma StartsWithConcat(a: string, b: string)
    ensures StartsWith(a + b, a)
  {
    assert (a + b)[..|a|] == a;
  }

  lemma EndsWithConcat(a: string, b: string)
    ensures EndsWith(a + b, b)
  {
    assert (a + b)[|a + b| - |b|..] == b;
  }

  /** `startsWith` holds exactly for the strings that are `p` followed by
      something. */
  lemma StartsWithIffPrefix(s: string, p: string)
    ensures StartsWith(s, p) <==> exists rest :: s == p + rest
  {
    if StartsWith(s, p) {
      assert s == p + s[|p|..];
    }
    forall rest | s == p + rest ensures StartsWith(s, p) {
      StartsWithConcat(p, rest);
    }
  }

  /** `endsWith` holds exactly for the strings that are something followed
      by `p`. */
  lemma EndsWithIffSuffix(s: string, p: string)
    ensures EndsWith(s, p) <==> exists front :: s == front + p
  {
    if EndsWith(s, p) {
      assert s == s[..|s| - |p|] + p;
    }
    forall front | s == front + p ensures EndsWith(s, p) {
      EndsWithConcat(front, p);
    }
  }

  /** `s.slice(n)` for a non-negative `n`. */
  function Slice(s: string, n: nat): string {
    if n <= |s| then s[n..] else ""
  }

  /** `t` occurs in `s` at position `k`. */
  predicate OccursAt(s: string, t: string, k: nat) {
    k + |t| <= |s| && s[k..k + |t|] == t
  }

  lemma OccursAtShift(s: string, t: string, k: nat)
    requires |s| > 0
    ensures OccursAt(s, t, k + 1) <==> OccursAt(s[1..], t, k)
  {
    if k + 1 + |t| <= |s| {
      assert s[k + 1..k + 1 + |t|] == s[1..][k..k + |t|];
    }
  }

  /** `s.indexOf(t)`, with -1 as `None`: the first position where `t` occurs. */
  function IndexOf(s: string, t: string): (r: Option<nat>)
    ensures r.Some? ==> OccursAt(s, t, r.value)
    ensures r.Some? ==> forall k :: 0 <= k < r.value ==> !OccursAt(s, t, k)
    ensures r.None? ==> forall k: nat :: !OccursAt(s, t, k)
    decreases |s|
  {
    if |t| > |s| then None
    else if s[..|t|] == t then
      assert s[0..|t|] == s[..|t|];
      Some(0)
    else
      assert s[0..|t|] == s[..|t|];
      var rest := IndexOf(s[1..], t);
      match rest
      case None =>
        assert forall k: nat :: !OccursAt(s, t, k) by {
          forall k: nat ensures !OccursAt(s, t, k) {
            if k > 0 { OccursAtShift(s, t, k - 1); }
          }
        }
        None
      case Some(i) =>
        assert forall k :: 0 <= k < i + 1 ==> !OccursAt(s, t, k) by {
          forall k | 0 <= k < i + 1 ensures !OccursAt(s, t, k) {
            if k > 0 { OccursAtShift(s, t, k - 1); }
          }
        }
        OccursAtShift(s, t, i);
        Some(i + 1)
  }

  /** The first occurrence is what `IndexOf` finds. */
  lemma IndexOfFirst(s: string, t: string, i: nat)
    requires OccursAt(s, t, i)
    requires forall k :: 0 <= k < i ==> !OccursAt(s, t, k)
    ensures IndexOf(s, t) == Some(i)
  {
  }

  /** `s.includes(t)`. */
  predicate Includes(s: string, t: string) {
    IndexOf(s, t).Some?
  }

  /** A text includes whatever is concatenated into it. */
  lemma IncludesMiddle(x: string, t: string, y: string)
    ensures Includes(x + t + y, t)
  {
    var u := x + t + y;
    assert u[|x|..|x| + |t|] == t;
    assert OccursAt(u, t, |x|);
  }

  /** `s.split(sep)` for a non-empty separator. */
  function Split(s: string, sep: string): (r: seq<string>)
    requires sep != ""
    ensures |r| >= 1
    decreases |s|
  {
    match IndexOf(s, sep)
    case None => [s]
    case Some(i) => [s[..i]] + Split(s[i + |sep|..], sep)
  }

  /** `parts.join(sep)`. */
  function Join(parts: seq<string>, sep: string): string {
    if parts == [] then ""
    else if |parts| == 1 then parts[0]
    else parts[0] + sep + Join(parts[1..], sep)
  }

  /** A joined text starts with the first piece. */
  lemma JoinStarts(parts: seq<string>, sep: string)
    requires |parts| >= 1
    ensures StartsWith(Join(parts, sep), parts[0])
  {
    if |parts| > 1 {
      assert Join(parts, sep) == parts[0] + (sep + Join(parts[1..], sep));
      StartsWithConcat(parts[0], sep + Join(parts[1..], sep));
    }
  }

  /** A joined text ends with the last piece. */
  lemma {:induction false} JoinEnds(parts: seq<string>, sep: string)
    requires |parts| >= 1
    ensures EndsWith(Join(parts, sep), parts[|parts| - 1])
    decreases |parts|
  {
    if |parts| > 1 {
      JoinEnds(parts[1..], sep);
      var rest := Join(parts[1..], sep);
      var j := Join(parts, sep);
      var last := parts[|parts| - 1];
      assert j == (parts[0] + sep) + rest;
      assert rest[|rest| - |last|..] == last;
      assert j[|j| - |last|..] == rest[|rest| - |last|..];
    }
  }

  /** Every character of a join comes from a piece or from the separator. */
  lemma {:induction false} JoinChars(parts: seq<string>, sep: string, p: char -> bool)
    requires forall i :: 0 <= i < |sep| ==> p(sep[i])
    requires forall k, i :: 0 <= k < |parts| && 0 <= i < |parts[k]| ==> p(parts[k][i])
    ensures forall i :: 0 <= i < |Join(parts, sep)| ==> p(Join(parts, sep)[i])
    decreases |parts|
  {
    if |parts| > 1 {
      JoinChars(parts[1..], sep, p);
      var rest := Join(parts[1..], sep);
      var j := Join(parts, sep);
      assert j == parts[0] + sep + rest;
      forall i | 0 <= i < |j| ensures p(j[i]) {
        if i < |parts[0]| {
        } else if i < |parts[0]| + |sep| {
          assert j[i] == sep[i - |parts[0]|];
        } else {
          assert j[i] == rest[i - |parts[0]| - |sep|];
        }
      }
    }
  }

  /** Joining the pieces of a split gives back the original text. */
  lemma {:induction false} JoinSplit(s: string, sep: string)
    requires sep != ""
    ensures Join(Split(s, sep), sep) == s
    decreases |s|
  {
    match IndexOf(s, sep)
    case None =>
    case Some(i) =>
      var head := s[..i];
      var tail := s[i + |sep|..];
      var rest := Split(tail, sep);
      assert Split(s, sep) == [head] + rest;
      JoinSplit(tail, sep);
      JoinCons(head, rest, sep);
      SliceAround(s, sep, i);
  }

  /** Joining a piece in front of more pieces puts the separator between. */
  lemma JoinCons(head: string, rest: seq<string>, sep: string)
    requires rest != []
    ensures Join([head] + rest, sep) == head + sep + Join(rest, sep)
  {
    assert ([head] + rest)[1..] == rest;
  }

  /** A text is what comes before an occurrence, the occurrence, and what
      comes after it. */
  lemma SliceAround(s: string, t: string, i: nat)
    requires OccursAt(s, t, i)
    ensures s == s[..i] + t + s[i + |t|..]
  {
    assert s == s[..i] + s[i..i + |t|] + s[i + |t|..];
  }

  /** No piece of a split contains the separator. */
  lemma {:induction false} SplitPiecesAvoidSeparator(s: string, sep: string)
    requires sep != ""
    ensures forall k :: 0 <= k < |Split(s, sep)| ==> !Includes(Split(s, sep)[k], sep)
    decreases |s|
  {
    match IndexOf(s, sep)
    case None =>
    case Some(i) =>
      var tail := s[i + |sep|..];
      SplitPiecesAvoidSeparator(tail, sep);
      var head := s[..i];
      forall k: nat ensures !OccursAt(head, sep, k) {
        if k + |sep| <= |head| {
          assert head[k..k + |sep|] == s[k..k + |sep|];
          assert !OccursAt(s, sep, k);
        }
      }
      IndexOfNone(head, sep);
      var rest := Split(tail, sep);
      var parts := Split(s, sep);
      assert parts == [head] + rest;
      forall k | 0 <= k < |parts| ensures !Includes(parts[k], sep) {
        if k > 0 {
          assert parts[k] == rest[k - 1];
        }
      }
  }

  /** Splitting around a one-character separator placed between two texts
      splits each text on its own. */
  lemma {:induction false} SplitAround(s: string, d: char, t: string)
    ensures Split(s + [d] + t, [d]) == Split(s, [d]) + Split(t, [d])
    decreases |s|
  {
    match IndexOf(s, [d])
    case None =>
      SplitAroundNone(s, d, t);
    case Some(i) =>
      var tail := s[i + 1..];
      SplitAroundFirst(s, d, t, i);
      SplitAround(tail, d, t);
      assert Split(s, [d]) == [s[..i]] + Split(tail, [d]);
  }

  /** Without the separator in `s`, the separator placed after it ends the
      first piece. */
  lemma SplitAroundNone(s: string, d: char, t: string)
    requires IndexOf(s, [d]).None?
    ensures Split(s + [d] + t, [d]) == [s] + Split(t, [d])
  {
    var u := s + ([d] + t);
    assert s + [d] + t == u;
    FirstInExtension(s, [d] + t, [d], |s|);
    SplitAt(u, [d], |s|);
    assert u[..|s|] == s && u[|s| + 1..] == t;
  }

  /** The first separator in `s` ends the first piece of `s + [d] + t`. */
  lemma SplitAroundFirst(s: string, d: char, t: string, i: nat)
    requires IndexOf(s, [d]) == Some(i)
    ensures Split(s + [d] + t, [d]) == [s[..i]] + Split(s[i + 1..] + [d] + t, [d])
  {
    var after := [d] + t;
    ConcatSlices(s, after, i);
    OccursInPrefix(s, after, [d], i);
    FirstInExtension(s, after, [d], i);
    SplitAt(s + after, [d], i);
    assert s + [d] + t == s + after;
    assert s[i + 1..] + [d] + t == s[i + 1..] + after;
  }

  /** Slicing a concatenation within its first part. */
  lemma ConcatSlices<T>(s: seq<T>, x: seq<T>, i: nat)
    requires i < |s|
    ensures (s + x)[..i] == s[..i]
    ensures (s + x)[i + 1..] == s[i + 1..] + x
  {
  }

  /** With no earlier occurrence in `s`, an occurrence at `i` in `s + rest`
      that starts no later than the last character of `s` is the first one. */
  lemma FirstInExtension(s: string, rest: string, t: string, i: nat)
    requires i + |t| <= |s| + 1
    requires forall k :: 0 <= k < i ==> !OccursAt(s, t, k)
    requires OccursAt(s + rest, t, i)
    ensures IndexOf(s + rest, t) == Some(i)
  {
    forall k | 0 <= k < i ensures !OccursAt(s + rest, t, k) {
      OccursInPrefix(s, rest, t, k);
    }
    IndexOfFirst(s + rest, t, i);
  }

  /** The pieces of a split whose first separator is at `i`. */
  lemma SplitAt(s: string, sep: string, i: nat)
    requires sep != "" && IndexOf(s, sep) == Some(i)
    ensures Split(s, sep) == [s[..i]] + Split(s[i + |sep|..], sep)
  {
  }

  /** An occurrence that fits in a prefix is an occurrence in the prefix. */
  lemma OccursInPrefix(s: string, rest: string, t: string, k: nat)
    requires k + |t| <= |s|
    ensures OccursAt(s + rest, t, k) <==> OccursAt(s, t, k)
  {
    assert (s + rest)[k..k + |t|] == s[k..k + |t|];
  }

  /** Text without the separator splits into itself alone. */
  lemma SplitWithout(t: string, d: char)
    requires d !in t
    ensures Split(t, [d]) == [t]
  {
    forall k: nat ensures !OccursAt(t, [d], k) {
      if k + 1 <= |t| {
        assert t[k..k + 1] == [t[k]];
      }
    }
  }

  /** Text without the separator splits into itself alone. */
  lemma SplitNoSeparator(t: string, sep: string)
    requires sep != "" && !Includes(t, sep)
    ensures Split(t, sep) == [t]
  {
  }

  /** With no occurrence anywhere, `IndexOf` finds nothing. */
  lemma IndexOfNone(s: string, t: string)
    requires forall k: nat :: !OccursAt(s, t, k)
    ensures IndexOf(s, t) == None
  {
  }

  /** A text in which the separator's first character never appears does
      not contain the separator. */
  lemma MissingFirstChar(s: string, t: string)
    requires |t| > 0
    requires forall i :: 0 <= i < |s| ==> s[i] != t[0]
    ensures !Includes(s, t)
  {
    forall k: nat ensures !OccursAt(s, t, k) {
      if k + |t| <= |s| {
        assert s[k..k + |t|][0] == s[k];
      }
    }
    IndexOfNone(s, t);
  }

  /** When the first occurrence of the separator is the one placed after `p`,
      `p` is the first piece. */
  lemma SplitAtFirst(p: string, sep: string, rest: string)
    requires sep != ""
    requires forall k :: 0 <= k < |p| ==> !OccursAt(p + sep + rest, sep, k)
    ensures Split(p + sep + rest, sep) == [p] + Split(rest, sep)
  {
    var u := p + sep + rest;
    assert u[|p|..|p| + |sep|] == sep;
    IndexOfFirst(u, sep, |p|);
    assert u[..|p|] == p;
    assert u[|p| + |sep|..] == rest;
  }

  /** Splitting the join of separator-free pieces on a one-character
      separator gives the pieces back. */
  lemma {:induction false} SplitJoin(parts: seq<string>, d: char)
    requires |parts| >= 1
    requires forall i :: 0 <= i < |parts| ==> d !in parts[i]
    ensures Split(Join(parts, [d]), [d]) == parts
    decreases |parts|
  {
    if |parts| == 1 {
      SplitWithout(parts[0], d);
    } else {
      var tail := parts[1..];
      assert forall i :: 0 <= i < |tail| ==> tail[i] == parts[i + 1];
      SplitJoin(tail, d);
      var rest := Join(tail, [d]);
      assert [parts[0]] + tail == parts;
      JoinCons(parts[0], tail, [d]);
      SplitAround(parts[0], d, rest);
      SplitWithout(parts[0], d);
    }
  }

  /** A decimal digit `0`-`9`. */
  predicate IsDigit(c: char) {
    '0' <= c <= '9'
  }

  /** Every character is a decimal digit (true of the empty string). */
  predicate AllDigits(s: string) {
    forall i :: 0 <= i < |s| ==> IsDigit(s[i])
  }

  /** The value of a string of decimal digits. */
  function DigitsValue(s: string): nat
    requires AllDigits(s)
    decreases |s|
  {
    if s == [] then 0
    else DigitsValue(s[..|s| - 1]) * 10 + (s[|s| - 1] as int - '0' as int)
  }

  /** A decimal numeral as `${n}` renders one: at least one digit and no
      leading zero. */
  predicate IsNumeral(s: string) {
    |s| >= 1 && AllDigits(s) && (|s| > 1 ==> s[0] != '0')
  }

  /** `${n}` for a non-negative integer: its shortest decimal rendering. */
  function NatToString(n: nat): (r: string)
    ensures IsNumeral(r)
  {
    if n < 10 then [('0' as int + n) as char]
    else NatToString(n / 10) + [('0' as int + n % 10) as char]
  }

  /** Reading the rendering back gives the number. */
  lemma {:induction false} NatToStringRoundTrip(n: nat)
    ensures DigitsValue(NatToString(n)) == n
  {
    if n >= 10 {
      NatToStringRoundTrip(n / 10);
      var r := NatToString(n);
      assert r[..|r| - 1] == NatToString(n / 10);
    }
  }

  /** The characters `String.prototype.trim` removes: WhiteSpace and
      LineTerminator of ECMAScript (section 12.2 and 12.3 of ECMA-262). */
  predicate IsWhitespace(c: char) {
    if c < '\U{0080}' then c == ' ' || ('\t' <= c <= '\r')
    else (c == '\U{00A0}' || c == '\U{FEFF}' || c == '\U{1680}'
          || ('\U{2000}' <= c <= '\U{200A}')
          || c == '\U{2028}' || c == '\U{2029}' || c == '\U{202F}' || c == '\U{205F}' || c == '\U{3000}')
  }

  /** The number of whitespace characters `s` starts with. */
  function LeadingWhitespace(s: string): (n: nat)
    ensures n <= |s|
    ensures forall i :: 0 <= i < n ==> IsWhitespace(s[i])
    ensures n < |s| ==> !IsWhitespace(s[n])
  {
    if s == [] || !IsWhitespace(s[0]) then 0 else 1 + LeadingWhitespace(s[1..])
  }

  /** The number of whitespace characters `s` ends with. */
  function TrailingWhitespace(s: string): (n: nat)
    ensures n <= |s|
    ensures forall i :: |s| - n <= i < |s| ==> IsWhitespace(s[i])
    ensures n < |s| ==> !IsWhitespace(s[|s| - 1 - n])
  {
    if s == [] || !IsWhitespace(s[|s| - 1]) then 0 else 1 + TrailingWhitespace(s[..|s| - 1])
  }

  /** `r` is the text of `s` from position `a` on, with only whitespace
      before it and after it. */
  predicate TrimmedAt(s: string, a: nat, r: string) {
    a + |r| <= |s| && (forall i :: 0 <= i < |r| ==> r[i] == s[a + i])
    && (forall i :: 0 <= i < a ==> IsWhitespace(s[i]))
    && (forall i :: a + |r| <= i < |s| ==> IsWhitespace(s[i]))
  }

  /** `s.trim()`: the text between the leading and the trailing whitespace. */
  function Trim(s: string): (r: string)
    ensures TrimmedAt(s, LeadingWhitespace(s), r)
    ensures r == [] || (!IsWhitespace(r[0]) && !IsWhitespace(r[|r| - 1]))
  {
    var a := LeadingWhitespace(s);
    if a == |s| then []
    else
      var m := TrailingWhitespace(s);
      assert !IsWhitespace(s[a]);
      s[a..|s| - m]
  }

  /** Whitespace in front of a text that starts otherwise is exactly the
      leading whitespace. */
  lemma LeadingPadded(pad: string, s: string)
    requires forall i :: 0 <= i < |pad| ==> IsWhitespace(pad[i])
    requires s == [] || !IsWhitespace(s[0])
    ensures LeadingWhitespace(pad + s) == |pad|
  {
    assert forall i :: 0 <= i < |pad| ==> (pad + s)[i] == pad[i];
    assert s != [] ==> (pad + s)[|pad|] == s[0];
  }

  /** Whitespace in front of a trimmed text is removed again. */
  lemma TrimPadded(pad: string, s: string)
    requires forall i :: 0 <= i < |pad| ==> IsWhitespace(pad[i])
    requires s != [] && !IsWhitespace(s[0]) && !IsWhitespace(s[|s| - 1])
    ensures Trim(pad + s) == s
  {
    LeadingPadded(pad, s);
    assert (pad + s)[|pad|..] == s;
    assert TrailingWhitespace(s) == 0;
  }

  /** Text without whitespace at either end is left as it is. */
  lemma TrimUnchanged(s: string)
    requires s == [] || (!IsWhitespace(s[0]) && !IsWhitespace(s[|s| - 1]))
    ensures Trim(s) == s
  {
    assert LeadingWhitespace(s) == 0 && s[0..] == s;
    assert TrailingWhitespace(s) == 0;
  }
}
