/**
 * The JavaScript string operations the analysis scripts rely on: `includes`,
 * `startsWith`, `join`, `split` with a string separator, ASCII lower-casing and
 * the UTF-8 byte length that `Buffer.byteLength(s, 'utf-8')` reports.
 */
module Strings {
  import opened Wrappers

  /** `p` occurs in `s` starting at index `i`. */
  ghost predicate OccursAt(s: string, i: int, p: string) {
    0 <= i && i + |p| <= |s| && s[i..i + |p|] == p
  }

  lemma OccursShift(s: string, i: nat, p: string)
    requires |s| > 0
    ensures OccursAt(s, i + 1, p) <==> OccursAt(s[1..], i, p)
  {
    if i + 1 + |p| <= |s| {
      assert s[1..][i..i + |p|] == s[i + 1..i + 1 + |p|];
    }
  }

  /** The first index at which `p` occurs in `s` (JavaScript's `indexOf`, with None for -1). */
  function IndexOf(s: string, p: string): (r: Option<nat>)
    ensures r.Some? ==> OccursAt(s, r.value, p)
    ensures r.Some? ==> forall j :: 0 <= j < r.value ==> !OccursAt(s, j, p)
    ensures r.None? ==> forall j :: !OccursAt(s, j, p)
    decreases |s|
  {
    if p <= s then
      assert s[0..|p|] == p;
      Some(0)
    else if |s| == 0 then
      None
    else
      var rest := IndexOf(s[1..], p);
      assert !OccursAt(s, 0, p);
      assert forall j: nat :: OccursAt(s, j + 1, p) <==> OccursAt(s[1..], j, p) by {
        forall j: nat ensures OccursAt(s, j + 1, p) <==> OccursAt(s[1..], j, p) {
          OccursShift(s, j, p);
        }
      }
      match rest
      case Some(k) =>
        assert forall j :: 0 < j < k + 1 ==> !OccursAt(s, j, p) by {
          forall j | 0 < j < k + 1 ensures !OccursAt(s, j, p) {
            OccursShift(s, j - 1, p);
          }
        }
        Some(k + 1)
      case None =>
        assert forall j :: 0 < j ==> !OccursAt(s, j, p) by {
          forall j | 0 < j ensures !OccursAt(s, j, p) {
            OccursShift(s, j - 1, p);
          }
        }
        None
  }

  /** An occurrence in `s` is still one in `pre + s`, shifted by `|pre|`. */
  lemma OccursAfterPrefix(pre: string, s: string, k: int, p: string)
    requires OccursAt(s, k, p)
    ensures OccursAt(pre + s, |pre| + k, p)
  {
    assert (pre + s)[|pre| + k..|pre| + k + |p|] == s[k..k + |p|];
  }

  /** A join starts with its first part. */
  lemma JoinStartsWithHead(xs: seq<string>, sep: string)
    requires |xs| >= 1
    ensures OccursAt(Join(xs, sep), 0, xs[0])
  {
    if |xs| > 1 {
      assert Join(xs, sep)[0..|xs[0]|] == xs[0];
    }
  }

  /** JavaScript's `s.includes(p)`. */
  predicate Contains(s: string, p: string) {
    IndexOf(s, p).Some?
  }

  lemma ContainsIff(s: string, p: string)
    ensures Contains(s, p) <==> exists i :: OccursAt(s, i, p)
  {
    var r := IndexOf(s, p);
    if r.Some? {
      assert OccursAt(s, r.value, p);
    }
  }

  /** JavaScript's `s.startsWith(p)`. */
  predicate StartsWith(s: string, p: string) {
    p <= s
  }

  /** JavaScript's `xs.join(sep)`: the empty list joins to the empty string. */
  function Join(xs: seq<string>, sep: string): string
  {
    if |xs| == 0 then ""
    else if |xs| == 1 then xs[0]
    else xs[0] + sep + Join(xs[1..], sep)
  }

  /** JavaScript's `s.split(sep)` for a non-empty string separator. */
  function Split(s: string, sep: string): (parts: seq<string>)
    requires |sep| > 0
    ensures |parts| >= 1
    ensures Join(parts, sep) == s
    ensures forall k :: 0 <= k < |parts| ==> !Contains(parts[k], sep)
    decreases |s|
  {
    match IndexOf(s, sep)
    case None => [s]
    case Some(i) =>
      var head := s[..i];
      var rest := Split(s[i + |sep|..], sep);
      assert !Contains(head, sep) by {
        forall j | OccursAt(head, j, sep) ensures false {
          assert s[j..j + |sep|] == head[j..j + |sep|];
          assert OccursAt(s, j, sep);
        }
        ContainsIff(head, sep);
      }
      assert s == head + sep + s[i + |sep|..] by {
        assert s[i..i + |sep|] == sep;
      }
      [head] + rest
  }

  /** When no element contains the separator's first character, splitting undoes joining. */
  lemma {:induction false} SplitJoin(xs: seq<string>, sep: string)
    requires |sep| > 0 && |xs| >= 1
    requires forall k :: 0 <= k < |xs| ==> sep[0] !in xs[k]
    ensures Split(Join(xs, sep), sep) == xs
    decreases |xs|
  {
    var s := Join(xs, sep);
    var x := xs[0];
    if |xs| == 1 {
      forall j | 0 <= j < |x| ensures !OccursAt(s, j, sep) {
        assert s[j] == x[j] && x[j] != sep[0];
      }
      assert IndexOf(s, sep).None?;
    } else {
      JoinFirstSeparator(xs, sep);
      SplitJoin(xs[1..], sep);
    }
  }

  /** In a join whose first part lacks the separator's first character, the first separator follows that part. */
  lemma JoinFirstSeparator(xs: seq<string>, sep: string)
    requires |sep| > 0 && |xs| >= 2 && sep[0] !in xs[0]
    ensures IndexOf(Join(xs, sep), sep) == Some(|xs[0]|)
    ensures Join(xs, sep)[..|xs[0]|] == xs[0]
    ensures Join(xs, sep)[|xs[0]| + |sep|..] == Join(xs[1..], sep)
  {
    var s, x, tail := Join(xs, sep), xs[0], Join(xs[1..], sep);
    assert s == x + sep + tail;
    forall j | 0 <= j < |x| ensures !OccursAt(s, j, sep) {
      assert s[j] == x[j] && x[j] != sep[0];
    }
    assert s[|x|..|x| + |sep|] == sep;
    assert OccursAt(s, |x|, sep);
    var r := IndexOf(s, sep);
    assert r.Some? && r.value == |x| by {
      assert r.Some?;
      assert !(r.value < |x|);
      assert !(r.value > |x|);
    }
    assert s[..|x|] == x;
    assert s[|x| + |sep|..] == tail;
  }

  /** ASCII upper-case letters mapped to lower case; every other character kept. */
  function LowerChar(c: char): char {
    if 'A' <= c <= 'Z' then (c as int + 32) as char else c
  }

  /** `toLowerCase()` restricted to the ASCII letters. */
  function ToLower(s: string): (r: string)
    ensures |r| == |s|
    ensures forall i :: 0 <= i < |s| ==> r[i] == LowerChar(s[i])
  {
    seq(|s|, i requires 0 <= i < |s| => LowerChar(s[i]))
  }

  /** Bytes UTF-8 uses for one Unicode scalar value. */
  function Utf8Width(c: char): (w: nat)
    ensures 1 <= w <= 4
  {
    if c as int < 0x80 then 1
    else if c as int < 0x800 then 2
    else if c as int < 0x1_0000 then 3
    else 4
  }

  /** `Buffer.byteLength(s, 'utf-8')`. */
  function Utf8Length(s: string): nat
  {
    if |s| == 0 then 0 else Utf8Length(s[..|s| - 1]) + Utf8Width(s[|s| - 1])
  }

  lemma {:induction false} Utf8LengthConcat(a: string, b: string)
    ensures Utf8Length(a + b) == Utf8Length(a) + Utf8Length(b)
    decreases |b|
  {
    if |b| > 0 {
      assert (a + b)[..|a + b| - 1] == a + b[..|b| - 1];
      Utf8LengthConcat(a, b[..|b| - 1]);
    } else {
      assert a + b == a;
    }
  }

  lemma {:induction false} Utf8LengthBounds(s: string)
    ensures |s| <= Utf8Length(s) <= 4 * |s|
    decreases |s|
  {
    if |s| > 0 {
      Utf8LengthBounds(s[..|s| - 1]);
    }
  }
}
