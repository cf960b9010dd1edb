/**
  The JavaScript string primitives the resume builder relies on:
  `String.prototype.trim`, `split` on a one-character separator and its
  inverse `join`, `toLowerCase` on e-mail addresses, and the UTF-16 `length`.

  Dafny `char`s are Unicode scalar values while JavaScript strings are UTF-16
  code units. Every character `trim` and `\s` treat as white space lies in the
  Basic Multilingual Plane, so trimming and splitting agree on both views;
  only `length` differs, and `Utf16Length` counts it the JavaScript way.
 */
module Text {
  import opened Common

  /** The WhiteSpace and LineTerminator characters of ECMAScript (section 12.2
      and 12.3 of ECMA-262), which `trim()` strips and the regular expression
      class `\s` matches. */
  predicate IsWhitespace(c: char) {
    var n := c as int;
    || n == 0x09 || n == 0x0A || n == 0x0B || n == 0x0C || n == 0x0D
    || n == 0x20 || n == 0xA0 || n == 0x1680
    || (0x2000 <= n <= 0x200A)
    || n == 0x2028 || n == 0x2029 || n == 0x202F || n == 0x205F
    || n == 0x3000 || n == 0xFEFF
  }

  predicate AllWhitespace(s: string) {
    forall i :: 0 <= i < |s| ==> IsWhitespace(s[i])
  }

  /** Neither end of `s` is white space: what `trim()` returns. */
  predicate IsTrimmed(s: string) {
    s == [] || (!IsWhitespace(s[0]) && !IsWhitespace(s[|s| - 1]))
  }

  /** Drops leading white space. */
  function TrimStart(s: string): (r: string)
    ensures |r| <= |s|
    ensures r == [] || !IsWhitespace(r[0])
    ensures s != [] && IsWhitespace(s[0]) ==> |r| < |s|
    decreases |s|
  {
    if s != [] && IsWhitespace(s[0]) then TrimStart(s[1..]) else s
  }

  /** What `TrimStart` drops is white space, and what it keeps is the rest. */
  lemma {:induction false} TrimStartSplits(s: string)
    ensures s == s[..|s| - |TrimStart(s)|] + TrimStart(s)
    ensures AllWhitespace(s[..|s| - |TrimStart(s)|])
    decreases |s|
  {
    if s != [] && IsWhitespace(s[0]) {
      var t := s[1..];
      TrimStartSplits(t);
      var k := |t| - |TrimStart(t)|;
      assert s[..k + 1] == [s[0]] + t[..k];
      assert s == [s[0]] + t;
    } else {
      assert s[..0] == [];
    }
  }

  /** Drops trailing white space. */
  function TrimEnd(s: string): (r: string)
    ensures |r| <= |s|
    ensures r == [] || !IsWhitespace(r[|r| - 1])
    decreases |s|
  {
    if s != [] && IsWhitespace(s[|s| - 1]) then TrimEnd(s[..|s| - 1]) else s
  }

  /** What `TrimEnd` keeps is a prefix, and what it drops is white space. */
  lemma {:induction false} TrimEndSplits(s: string)
    ensures s == TrimEnd(s) + s[|TrimEnd(s)|..]
    ensures AllWhitespace(s[|TrimEnd(s)|..])
    decreases |s|
  {
    if s != [] && IsWhitespace(s[|s| - 1]) {
      var t := s[..|s| - 1];
      TrimEndSplits(t);
      var k := |TrimEnd(t)|;
      assert s[k..] == t[k..] + [s[|s| - 1]];
      assert s == t + [s[|s| - 1]];
    } else {
      assert s[|s|..] == [];
    }
  }

  /** `String.prototype.trim`. */
  function Trim(s: string): (r: string)
    ensures IsTrimmed(r)
    ensures |r| <= |s|
  {
    var t := TrimStart(s);
    TrimEndSplits(t);
    TrimEnd(t)
  }

  /** `Trim` removes exactly the white space around the trimmed middle:
      whenever `s` is white space, then a trimmed core, then white space,
      `Trim(s)` is that core. This pins `Trim` down independently of how it
      is computed. */
  lemma {:induction false} TrimCharacterization(a: string, m: string, b: string)
    requires AllWhitespace(a) && AllWhitespace(b) && IsTrimmed(m) && m != []
    ensures Trim(a + m + b) == m
  {
    var s := a + m + b;
    TrimStartDrops(a, m + b);
    assert s == a + (m + b);
    assert TrimStart(s) == m + b;
    TrimEndDrops(m, b);
  }

  lemma {:induction false} TrimStartDrops(a: string, t: string)
    requires AllWhitespace(a)
    requires t != [] && !IsWhitespace(t[0])
    ensures TrimStart(a + t) == t
    decreases |a|
  {
    if a != [] {
      assert (a + t)[1..] == a[1..] + t;
      TrimStartDrops(a[1..], t);
    } else {
      assert a + t == t;
    }
  }

  lemma {:induction false} TrimEndDrops(t: string, b: string)
    requires AllWhitespace(b)
    requires t != [] && !IsWhitespace(t[|t| - 1])
    ensures TrimEnd(t + b) == t
    decreases |b|
  {
    if b != [] {
      var b' := b[..|b| - 1];
      assert (t + b)[..|t + b| - 1] == t + b';
      TrimEndDrops(t, b');
    } else {
      assert t + b == t;
    }
  }

  /** Trimming an already trimmed string changes nothing; in particular
      `Trim` is idempotent. */
  lemma TrimTrimmed(s: string)
    requires IsTrimmed(s)
    ensures Trim(s) == s
  {
    if s != [] {
      assert AllWhitespace([]);
      assert [] + s + [] == s;
      TrimCharacterization([], s, []);
    }
  }

  lemma TrimIdempotent(s: string)
    ensures Trim(Trim(s)) == Trim(s)
  {
    TrimTrimmed(Trim(s));
  }

  /** The trimmed value is empty exactly when the input is all white space
      (this is when the builder shows a placeholder and hides a section). */
  lemma TrimEmptyIff(s: string)
    ensures Trim(s) == [] <==> AllWhitespace(s)
  {
    if AllWhitespace(s) {
      TrimStartAllWhitespace(s);
    }
    var t := TrimStart(s);
    if TrimEnd(t) == [] {
      TrimStartSplits(s);
      TrimEndSplits(t);
      assert t[0..] == t;
    }
  }

  /** `Trim` only removes characters, so it cannot introduce one. */
  lemma TrimKeepsAbsent(s: string, c: char)
    requires c !in s
    ensures c !in Trim(s)
  {
    var t := TrimStart(s);
    TrimStartSplits(s);
    TrimEndSplits(t);
    assert forall x :: x in t ==> x in s;
    assert forall x :: x in TrimEnd(t) ==> x in t;
  }

  lemma {:induction false} TrimStartAllWhitespace(s: string)
    requires AllWhitespace(s)
    ensures TrimStart(s) == []
    decreases |s|
  {
    if s != [] {
      TrimStartAllWhitespace(s[1..]);
    }
  }

  /** Number of occurrences of `c` in `s`. */
  function Count(s: string, c: char): (n: nat)
    ensures n <= |s|
    ensures n == 0 <==> c !in s
  {
    if s == [] then 0
    else (if s[0] == c then 1 else 0) + Count(s[1..], c)
  }

  /** `parts.join(sep)`: the parts with `sep` between neighbours. */
  function Join(parts: seq<string>, sep: string): string
  {
    if parts == [] then []
    else if |parts| == 1 then parts[0]
    else parts[0] + sep + Join(parts[1..], sep)
  }

  /** `s.split(sep)` for a one-character separator: the pieces between the
      separators, so there is always one more piece than separators, and the
      pieces joined back with `sep` give `s`. */
  function Split(s: string, sep: char): (parts: seq<string>)
    ensures |parts| == Count(s, sep) + 1
    ensures forall i :: 0 <= i < |parts| ==> sep !in parts[i]
    ensures Join(parts, [sep]) == s
    decreases |s|
  {
    if s == [] then [[]]
    else
      var rest := Split(s[1..], sep);
      assert s == [s[0]] + s[1..];
      if s[0] == sep then
        [[]] + rest
      else
        JoinExtendFirst([s[0]], rest, [sep]);
        [[s[0]] + rest[0]] + rest[1..]
  }

  lemma Join3(x: string, y: string, z: string, sep: string)
    ensures Join([x, y, z], sep) == x + sep + y + sep + z
  {
    assert [x, y, z][1..] == [y, z];
    assert [y, z][1..] == [z];
    assert Join([y, z], sep) == y + sep + z;
  }

  lemma JoinExtendFirst(x: string, parts: seq<string>, sep: string)
    requires parts != []
    ensures Join([x + parts[0]] + parts[1..], sep) == x + Join(parts, sep)
  {
    var p := [x + parts[0]] + parts[1..];
    if |parts| > 1 {
      assert p[1..] == parts[1..];
    }
  }

  /** `Split` is the only way to cut `s` into separator-free pieces that join
      back to `s`: it inverts `Join`. */
  lemma {:induction false} SplitJoin(parts: seq<string>, sep: char)
    requires parts != []
    requires forall i :: 0 <= i < |parts| ==> sep !in parts[i]
    ensures Split(Join(parts, [sep]), sep) == parts
    decreases |parts|, |parts[0]|
  {
    if parts[0] == [] {
      if |parts| > 1 {
        assert forall i :: 0 <= i < |parts[1..]| ==> parts[1..][i] == parts[i + 1];
        SplitJoin(parts[1..], sep);
        SplitJoinEmptyFirst(parts, sep);
      }
    } else {
      var q := DropFirstChar(parts, sep);
      SplitJoin(q, sep);
      SplitJoinNonEmptyFirst(parts, q, sep);
    }
  }

  /** Removes the first character of the first piece, keeping the pieces
      free of the separator. */
  function DropFirstChar(parts: seq<string>, sep: char): (q: seq<string>)
    requires parts != [] && parts[0] != []
    requires forall i :: 0 <= i < |parts| ==> sep !in parts[i]
    ensures q != [] && |q| == |parts| && |q[0]| < |parts[0]|
    ensures q[0] == parts[0][1..] && q[1..] == parts[1..]
    ensures forall i :: 0 <= i < |q| ==> sep !in q[i]
  {
    var p0 := parts[0];
    assert forall x :: x in p0[1..] ==> x in p0;
    [p0[1..]] + parts[1..]
  }

  lemma SplitJoinEmptyFirst(parts: seq<string>, sep: char)
    requires |parts| > 1 && parts[0] == []
    requires Split(Join(parts[1..], [sep]), sep) == parts[1..]
    ensures Split(Join(parts, [sep]), sep) == parts
  {
    var tail := Join(parts[1..], [sep]);
    var s := Join(parts, [sep]);
    assert s == [] + [sep] + tail;
    SplitSeparatorFirst(tail, sep);
    assert [sep] + tail == s;
    assert parts == [[]] + parts[1..];
  }

  lemma SplitSeparatorFirst(t: string, sep: char)
    ensures Split([sep] + t, sep) == [[]] + Split(t, sep)
  {
    assert ([sep] + t)[1..] == t;
  }

  lemma SplitJoinNonEmptyFirst(parts: seq<string>, q: seq<string>, sep: char)
    requires parts != [] && parts[0] != [] && sep !in parts[0]
    requires q != [] && q[0] == parts[0][1..] && q[1..] == parts[1..]
    requires Split(Join(q, [sep]), sep) == q
    ensures Split(Join(parts, [sep]), sep) == parts
  {
    var p0 := parts[0];
    var c := p0[0];
    assert p0 == [c] + q[0];
    JoinExtendFirst([c], q, [sep]);
    assert [[c] + q[0]] + q[1..] == parts;
    var s := Join(parts, [sep]);
    assert s == [c] + Join(q, [sep]);
    assert s[1..] == Join(q, [sep]);
    assert c in p0;
  }

  /** `toLowerCase` on the ASCII letters. */
  function LowerChar(c: char): (r: char)
    ensures 'A' <= c <= 'Z' ==> 'a' <= r <= 'z' && r as int == c as int + 32
    ensures !('A' <= c <= 'Z') ==> r == c
  {
    if 'A' <= c <= 'Z' then (c as int + 32) as char else c
  }

  function ToLower(s: string): (r: string)
    ensures |r| == |s|
    ensures forall i :: 0 <= i < |s| ==> r[i] == LowerChar(s[i])
  {
    seq(|s|, i requires 0 <= i < |s| => LowerChar(s[i]))
  }

  /** The JavaScript `length` of a string: characters outside the Basic
      Multilingual Plane occupy two UTF-16 code units. */
  function Utf16Length(s: string): (n: nat)
    ensures |s| <= n <= 2 * |s|
    ensures (forall i :: 0 <= i < |s| ==> s[i] as int <= 0xFFFF) ==> n == |s|
  {
    if s == [] then 0
    else (if s[0] as int > 0xFFFF then 2 else 1) + Utf16Length(s[1..])
  }
}
