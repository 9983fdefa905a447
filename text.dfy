/**
 * The handful of Ruby String and Array operations the models rely on, written
 * out over `seq<char>`: `split` with a one-character separator, `join`,
 * `start_with?`/`end_with?`, ASCII `downcase`, `strip`, Rails' `blank?`, and
 * Array difference `a - b`.
 */
module Text {

  /** The fields of `s` between occurrences of `c`, empty fields included. */
  function SplitAll(s: string, c: char): (r: seq<string>)
    ensures |r| >= 1
    ensures forall i :: 0 <= i < |r| ==> c !in r[i]
  {
    if |s| == 0 then [""]
    else
      var rest := SplitAll(s[1..], c);
      if s[0] == c then [""] + rest
      else [[s[0]] + rest[0]] + rest[1..]
  }

  /** Drops every empty field at the end, as Ruby's `split` does. */
  function DropTrailingEmpty(parts: seq<string>): (r: seq<string>)
    ensures |r| <= |parts| && r == parts[..|r|]
    ensures r == [] || r[|r| - 1] != ""
    ensures forall i :: |r| <= i < |parts| ==> parts[i] == ""
  {
    if |parts| == 0 then []
    else if parts[|parts| - 1] == "" then DropTrailingEmpty(parts[..|parts| - 1])
    else parts
  }

  /** Ruby `s.split(c)` for a one-character separator `c`. */
  function Split(s: string, c: char): (r: seq<string>)
  {
    DropTrailingEmpty(SplitAll(s, c))
  }

  /** Ruby `parts.join(sep)`. */
  function Join(parts: seq<string>, sep: string): (r: string)
  {
    if |parts| == 0 then ""
    else if |parts| == 1 then parts[0]
    else parts[0] + sep + Join(parts[1..], sep)
  }

  /** Joining the fields of a split with the separator gives back the string. */
  lemma {:induction false} JoinSplitAll(s: string, c: char)
    ensures Join(SplitAll(s, c), [c]) == s
  {
    if |s| > 0 {
      var rest := SplitAll(s[1..], c);
      JoinSplitAll(s[1..], c);
      if s[0] == c {
        assert SplitAll(s, c) == [""] + rest;
        assert ([""] + rest)[1..] == rest;
      } else if |rest| == 1 {
        assert SplitAll(s, c) == [[s[0]] + rest[0]];
        assert s == [s[0]] + s[1..];
      } else {
        var parts := [[s[0]] + rest[0]] + rest[1..];
        assert parts[1..] == rest[1..];
        assert Join(rest, [c]) == rest[0] + [c] + Join(rest[1..], [c]);
        assert s == [s[0]] + s[1..];
      }
    }
  }

  lemma {:induction false} SplitAllNoSeparator(x: string, c: char)
    requires c !in x
    ensures SplitAll(x, c) == [x]
  {
    if |x| > 0 {
      SplitAllNoSeparator(x[1..], c);
      assert [x[0]] + x[1..] == x;
    }
  }

  lemma {:induction false} SplitAllAfterField(x: string, y: string, c: char)
    requires c !in x
    ensures SplitAll(x + [c] + y, c) == [x] + SplitAll(y, c)
  {
    if |x| == 0 {
      assert x + [c] + y == [c] + y;
      assert ([c] + y)[1..] == y;
    } else {
      assert (x + [c] + y)[1..] == x[1..] + [c] + y;
      SplitAllAfterField(x[1..], y, c);
      assert [x[0]] + x[1..] == x;
    }
  }

  /** Splitting a join gives back the parts, none of them holding the separator. */
  lemma {:induction false} SplitAllJoin(parts: seq<string>, c: char)
    requires |parts| >= 1
    requires forall i :: 0 <= i < |parts| ==> c !in parts[i]
    ensures SplitAll(Join(parts, [c]), c) == parts
  {
    if |parts| == 1 {
      SplitAllNoSeparator(parts[0], c);
    } else {
      SplitAllJoin(parts[1..], c);
      SplitAllAfterField(parts[0], Join(parts[1..], [c]), c);
      assert [parts[0]] + parts[1..] == parts;
    }
  }

  /**
   * Ruby's `split` undoes `join` when no part holds the separator and the
   * last part is not empty (empty trailing fields are dropped by `split`).
   */
  lemma SplitJoin(parts: seq<string>, c: char)
    requires forall i :: 0 <= i < |parts| ==> c !in parts[i]
    requires parts == [] || parts[|parts| - 1] != ""
    ensures Split(Join(parts, [c]), c) == parts
  {
    if parts != [] {
      SplitAllJoin(parts, c);
    }
  }

  predicate StartsWith(s: string, prefix: string)
  {
    |prefix| <= |s| && s[..|prefix|] == prefix
  }

  predicate EndsWith(s: string, suffix: string)
  {
    |suffix| <= |s| && s[|s| - |suffix|..] == suffix
  }

  /** ASCII case folding; other characters are left alone. */
  function ToLowerChar(ch: char): (r: char)
  {
    if 'A' <= ch <= 'Z' then (ch as int + 32) as char else ch
  }

  function ToLower(s: string): (r: string)
  {
    seq(|s|, i requires 0 <= i < |s| => ToLowerChar(s[i]))
  }

  lemma ToLowerIdempotent(s: string)
    ensures ToLower(ToLower(s)) == ToLower(s)
  {
    assert forall i :: 0 <= i < |s| ==> ToLowerChar(ToLowerChar(s[i])) == ToLowerChar(s[i]);
  }

  /** The characters Ruby's `strip` removes: NUL, tab, LF, VT, FF, CR and space. */
  predicate IsStripSpace(ch: char)
  {
    ch == '\0' || ('\t' <= ch <= '\r') || ch == ' '
  }

  function LStrip(s: string): (r: string)
  {
    if |s| > 0 && IsStripSpace(s[0]) then LStrip(s[1..]) else s
  }

  function RStrip(s: string): (r: string)
  {
    if |s| > 0 && IsStripSpace(s[|s| - 1]) then RStrip(s[..|s| - 1]) else s
  }

  /** `lstrip` removes exactly the leading strip spaces. */
  lemma {:induction false} LStripSpec(s: string)
    ensures |LStrip(s)| <= |s| && LStrip(s) == s[|s| - |LStrip(s)|..]
    ensures LStrip(s) == [] || !IsStripSpace(LStrip(s)[0])
    ensures forall i :: 0 <= i < |s| - |LStrip(s)| ==> IsStripSpace(s[i])
  {
    if |s| > 0 && IsStripSpace(s[0]) {
      LStripSpec(s[1..]);
      forall i | 0 <= i < |s| - |LStrip(s)| ensures IsStripSpace(s[i]) {
        if i > 0 {
          assert s[i] == s[1..][i - 1];
        }
      }
    }
  }

  /** `rstrip` removes exactly the trailing strip spaces. */
  lemma {:induction false} RStripSpec(s: string)
    ensures |RStrip(s)| <= |s| && RStrip(s) == s[..|RStrip(s)|]
    ensures RStrip(s) == [] || !IsStripSpace(RStrip(s)[|RStrip(s)| - 1])
    ensures forall i :: |RStrip(s)| <= i < |s| ==> IsStripSpace(s[i])
  {
    if |s| > 0 && IsStripSpace(s[|s| - 1]) {
      RStripSpec(s[..|s| - 1]);
      forall i | |RStrip(s)| <= i < |s| ensures IsStripSpace(s[i]) {
        if i < |s| - 1 {
          assert s[i] == s[..|s| - 1][i];
        }
      }
    }
  }

  /** Ruby `s.strip`. */
  function Strip(s: string): (r: string)
  {
    RStrip(LStrip(s))
  }

  /** What `strip` leaves neither starts nor ends with a strip space. */
  lemma StripEdges(s: string)
    ensures Strip(s) == [] || (!IsStripSpace(Strip(s)[0]) && !IsStripSpace(Strip(s)[|Strip(s)| - 1]))
  {
    LStripSpec(s);
    RStripSpec(LStrip(s));
  }

  /** The `[[:space:]]` class of Rails' `blank?`: the Unicode White_Space characters. */
  predicate IsSpace(ch: char)
  {
    var n := ch as int;
    (9 <= n <= 13) || n == 32 || n == 0x85 || n == 0xA0 || n == 0x1680
    || (0x2000 <= n <= 0x200A) || n == 0x2028 || n == 0x2029 || n == 0x202F
    || n == 0x205F || n == 0x3000
  }

  /** Rails `blank?` on a string: empty or only white space. */
  predicate IsBlank(s: string)
  {
    forall i :: 0 <= i < |s| ==> IsSpace(s[i])
  }

  /** Ruby Array difference `a - b`: the elements of `a` not in `b`, in order, repeats kept. */
  function Difference<T(==)>(a: seq<T>, b: seq<T>): (r: seq<T>)
    ensures |r| <= |a|
  {
    if |a| == 0 then []
    else if a[0] in b then Difference(a[1..], b)
    else [a[0]] + Difference(a[1..], b)
  }

  lemma {:induction false} DifferenceMembers<T>(a: seq<T>, b: seq<T>, x: T)
    ensures x in Difference(a, b) <==> x in a && x !in b
  {
    if |a| > 0 {
      DifferenceMembers(a[1..], b, x);
      assert a == [a[0]] + a[1..];
    }
  }
}
