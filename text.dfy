/** The JavaScript string builtins the codec is written with: `split` and `join`
    with a separator, `replaceAll` of one character by nothing and `substring`, plus
    ASCII lower-casing, which the codec never calls and which serves only to state what
    a round trip gives back. Strings are sequences of Dafny `char`s, which are Unicode
    scalar values rather than JavaScript's UTF-16 code units: a character outside the
    Basic Multilingual Plane counts once here and twice in a JavaScript `length`. */
module Text {

  /** `s.split(sep)` for a one-character separator: the pieces between separators,
      so `"".split("-") == [""]` and `"-".split("-") == ["", ""]`. */
  function Split(s: string, sep: char): (parts: seq<string>)
    ensures |parts| >= 1
    decreases |s|
  {
    if |s| == 0 then [""]
    else if s[0] == sep then [""] + Split(s[1..], sep)
    else
      var rest := Split(s[1..], sep);
      [[s[0]] + rest[0]] + rest[1..]
  }

  /** `parts.join(sep)`; the join of no parts is the empty string. */
  function Join(parts: seq<string>, sep: string): (r: string)
    ensures |parts| > 0 ==> |r| == TotalLength(parts) + (|parts| - 1) * |sep|
  {
    if |parts| == 0 then ""
    else if |parts| == 1 then parts[0]
    else parts[0] + sep + Join(parts[1..], sep)
  }

  /** The number of characters in all the parts together. */
  function TotalLength(parts: seq<string>): nat
  {
    if |parts| == 0 then 0 else |parts[0]| + TotalLength(parts[1..])
  }

  /** `s.replaceAll(c, "")` for a one-character pattern `c`. */
  function RemoveAll(s: string, c: char): (r: string)
    ensures forall i :: 0 <= i < |r| ==> r[i] != c
    ensures |r| <= |s|
  {
    if |s| == 0 then ""
    else if s[0] == c then RemoveAll(s[1..], c)
    else [s[0]] + RemoveAll(s[1..], c)
  }

  /** `s.substring(start, end)`: both ends are clamped to the string and swapped
      when the start is past the end. */
  function Substring(s: string, start: nat, end: nat): (r: string)
    ensures |r| <= |s|
    ensures start <= end <= |s| ==> r == s[start..end]
    ensures end <= start <= |s| ==> r == s[end..start]
  {
    var a := if start < |s| then start else |s|;
    var b := if end < |s| then end else |s|;
    if a <= b then s[a..b] else s[b..a]
  }

  /** `s.substring(start)`: from `start` to the end of the string. */
  function SubstringFrom(s: string, start: nat): (r: string)
    ensures start <= |s| ==> r == s[start..]
    ensures start > |s| ==> r == ""
  {
    Substring(s, start, |s|)
  }

  function AsciiLowerChar(c: char): char
  {
    if 'A' <= c <= 'Z' then (c as int - 'A' as int + 'a' as int) as char else c
  }

  /** ASCII lower-casing. The codec never lowers a string itself: its output is lowercase
      because `encodeHex` writes lowercase digits, and this function states how that output
      relates to an input in either case. */
  function AsciiLower(s: string): (r: string)
    ensures |r| == |s|
    ensures forall i :: 0 <= i < |s| ==> r[i] == AsciiLowerChar(s[i])
  {
    seq(|s|, i requires 0 <= i < |s| => AsciiLowerChar(s[i]))
  }

  predicate Lacks(s: string, c: char)
  {
    forall i :: 0 <= i < |s| ==> s[i] != c
  }

  /** Splitting and joining again with the same separator gives back the string. */
  lemma {:induction false} JoinSplit(s: string, sep: char)
    ensures Join(Split(s, sep), [sep]) == s
    decreases |s|
  {
    if |s| > 0 {
      var rest := Split(s[1..], sep);
      JoinSplit(s[1..], sep);
      assert s == [s[0]] + s[1..];
      if s[0] == sep {
        JoinCons("", rest, [sep]);
      } else {
        JoinGlue(s[0], rest, [sep]);
      }
    }
  }

  /** Joining a part in front of at least one more part puts the separator between. */
  lemma JoinCons(p: string, rest: seq<string>, sep: string)
    requires |rest| >= 1
    ensures Join([p] + rest, sep) == p + sep + Join(rest, sep)
  {
    assert ([p] + rest)[1..] == rest;
  }

  /** Gluing a character onto the first part puts it in front of the join. */
  lemma JoinGlue(c: char, rest: seq<string>, sep: string)
    requires |rest| >= 1
    ensures Join([[c] + rest[0]] + rest[1..], sep) == [c] + Join(rest, sep)
  {
    if |rest| > 1 {
      assert ([[c] + rest[0]] + rest[1..])[1..] == rest[1..];
    }
  }

  /** No piece of a split contains the separator. */
  lemma {:induction false} SplitLacks(s: string, sep: char)
    ensures forall k :: 0 <= k < |Split(s, sep)| ==> Lacks(Split(s, sep)[k], sep)
    decreases |s|
  {
    if |s| > 0 {
      var rest := Split(s[1..], sep);
      SplitLacks(s[1..], sep);
      var parts := Split(s, sep);
      forall k | 0 <= k < |parts| ensures Lacks(parts[k], sep) {
        if s[0] == sep {
          if k > 0 { assert parts[k] == rest[k - 1]; }
        } else {
          if k > 0 { assert parts[k] == rest[k]; }
          else { assert Lacks(rest[0], sep); }
        }
      }
    }
  }

  /** A string without the separator splits into itself alone. */
  lemma {:induction false} SplitNone(s: string, sep: char)
    requires Lacks(s, sep)
    ensures Split(s, sep) == [s]
    decreases |s|
  {
    if |s| > 0 {
      SplitNone(s[1..], sep);
      assert [s[0]] + s[1..] == s;
    }
  }

  /** When the first separator of `s` sits at `k`, the first piece is `s[..k]` and
      the rest is the split of what follows the separator. */
  lemma {:induction false} SplitFirst(s: string, sep: char, k: nat)
    requires k < |s| && s[k] == sep && Lacks(s[..k], sep)
    ensures Split(s, sep) == [s[..k]] + Split(s[k + 1..], sep)
    decreases k
  {
    if k > 0 {
      var t := s[1..];
      assert t[..k - 1] == s[..k][1..];
      assert Lacks(t[..k - 1], sep);
      SplitFirst(s[1..], sep, k - 1);
      assert s[1..][k..] == s[k + 1..];
      assert s[..k][0] != sep;
      assert [s[0]] + s[1..k] == s[..k];
    }
  }

  /** Removing a character distributes over concatenation. */
  lemma {:induction false} RemoveAllAppend(a: string, b: string, c: char)
    ensures RemoveAll(a + b, c) == RemoveAll(a, c) + RemoveAll(b, c)
    decreases |a|
  {
    if |a| > 0 {
      assert (a + b)[1..] == a[1..] + b;
      RemoveAllAppend(a[1..], b, c);
    } else {
      assert a + b == b;
    }
  }

  /** A string without the character is left as it is. */
  lemma {:induction false} RemoveAllNone(s: string, c: char)
    requires Lacks(s, c)
    ensures RemoveAll(s, c) == s
    decreases |s|
  {
    if |s| > 0 {
      RemoveAllNone(s[1..], c);
      assert [s[0]] + s[1..] == s;
    }
  }
}
