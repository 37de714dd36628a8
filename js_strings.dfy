/**
 * The parts of JavaScript's built-in string behaviour the helpers rely on:
 * `Array.prototype.join`, `String.prototype.split` with a one-character
 * separator, and what the regular-expression atom `.` matches.
 */
module JsStrings {

  /** Number of occurrences of `c` in `s`. */
  function Count(s: string, c: char): nat
  {
    if s == [] then 0 else (if s[0] == c then 1 else 0) + Count(s[1..], c)
  }

  /** The sum of the lengths of `parts`. */
  function TotalLength(parts: seq<string>): nat
  {
    if parts == [] then 0 else |parts[0]| + TotalLength(parts[1..])
  }

  /** `parts.join(sep)`: the parts with `sep` between neighbours; `[].join(sep)` is `""`. */
  function Join(parts: seq<string>, sep: string): (r: string)
    ensures |parts| == 0 ==> r == ""
    ensures |parts| > 0 ==> parts[0] <= r
    ensures |parts| > 0 ==> |r| == TotalLength(parts) + (|parts| - 1) * |sep|
  {
    if |parts| == 0 then ""
    else if |parts| == 1 then parts[0]
    else
      var rest := Join(parts[1..], sep);
      assert |parts[0] + sep + rest| == |parts[0]| + |sep| + |rest|;
      assert (|parts| - 1) * |sep| == |sep| + (|parts| - 2) * |sep|;
      parts[0] + sep + rest
  }

  /** Joining one more part appends the separator and that part: the parts keep their order. */
  lemma {:induction false} JoinAppend(parts: seq<string>, p: string, sep: string)
    requires |parts| > 0
    ensures Join(parts + [p], sep) == Join(parts, sep) + sep + p
  {
    if |parts| == 1 {
      assert (parts + [p])[1..] == [p];
    } else {
      assert (parts + [p])[1..] == parts[1..] + [p];
      JoinAppend(parts[1..], p, sep);
      assert Join(parts + [p], sep) == parts[0] + sep + (Join(parts[1..], sep) + sep + p);
    }
  }

  /** The segments of `s` between the occurrences of `sep`, as `s.split(sep)` returns them. */
  function Split(s: string, sep: char): (r: seq<string>)
    ensures |r| == Count(s, sep) + 1
    ensures forall i :: 0 <= i < |r| ==> sep !in r[i]
    ensures Join(r, [sep]) == s
  {
    if s == [] then [""]
    else
      var rest := Split(s[1..], sep);
      if s[0] == sep then
        assert s == [sep] + s[1..];
        [""] + rest
      else
        var r := [[s[0]] + rest[0]] + rest[1..];
        assert r[1..] == rest[1..];
        assert s == [s[0]] + s[1..];
        r
  }

  /**
   * Split undoes Join: a non-empty list of separator-free parts is recovered
   * exactly, in order, from its joined form.
   */
  lemma {:induction false} SplitJoin(parts: seq<string>, sep: char)
    requires |parts| > 0
    requires forall i :: 0 <= i < |parts| ==> sep !in parts[i]
    ensures Split(Join(parts, [sep]), sep) == parts
  {
    if |parts| == 1 {
      SplitSegment(parts[0], sep);
    } else {
      SplitJoin(parts[1..], sep);
      SplitAfterSegment(parts[0], Join(parts[1..], [sep]), sep);
      assert Join(parts, [sep]) == parts[0] + ([sep] + Join(parts[1..], [sep]));
      assert parts == [parts[0]] + parts[1..];
    }
  }

  /** A separator-free string splits into itself alone. */
  lemma {:induction false} SplitSegment(t: string, sep: char)
    requires sep !in t
    ensures Split(t, sep) == [t]
  {
    if t != [] {
      SplitSegment(t[1..], sep);
      assert t == [t[0]] + t[1..];
    }
  }

  /** Splitting a separator-free segment, a separator and a tail. */
  lemma {:induction false} SplitAfterSegment(t: string, tail: string, sep: char)
    requires sep !in t
    ensures Split(t + [sep] + tail, sep) == [t] + Split(tail, sep)
  {
    if t == [] {
      assert t + [sep] + tail == [sep] + tail;
      assert ([sep] + tail)[1..] == tail;
    } else {
      SplitAfterSegment(t[1..], tail, sep);
      assert (t + [sep] + tail)[1..] == t[1..] + [sep] + tail;
      assert t == [t[0]] + t[1..];
    }
  }

  /** The characters the regular-expression atom `.` does not match (no `s` flag). */
  predicate IsLineTerminator(c: char)
  {
    c == '\n' || c == '\r' || c == '\U{2028}' || c == '\U{2029}'
  }

  /** What the greedy group `(.*)` captures at the start of `s`: the longest prefix without a line terminator. */
  function LeadingLine(s: string): (r: string)
    ensures r <= s
    ensures forall i :: 0 <= i < |r| ==> !IsLineTerminator(r[i])
    ensures r == s || IsLineTerminator(s[|r|])
  {
    if s == [] || IsLineTerminator(s[0]) then ""
    else [s[0]] + LeadingLine(s[1..])
  }

  /** A string without line terminators is captured whole. */
  lemma {:induction false} LeadingLineWhole(s: string)
    requires forall i :: 0 <= i < |s| ==> !IsLineTerminator(s[i])
    ensures LeadingLine(s) == s
  {
    if s != [] {
      forall i | 0 <= i < |s[1..]| ensures !IsLineTerminator(s[1..][i]) {
        assert s[1..][i] == s[i + 1];
      }
      LeadingLineWhole(s[1..]);
    }
  }
}
