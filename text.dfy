/** String operations the picker applies to catalog fields and user queries:
    ASCII case mapping, substring search (Python's `in` and a literal
    `str.contains`), `strip`, whitespace `split`, `", ".join` and the
    code-point order that Python's `sorted` uses on strings. */
module Text {

  /** ASCII whitespace as Python's `str.strip` and `str.split` see it
      (tab, newline, vertical tab, form feed, carriage return, the four
      separator controls 0x1C-0x1F, and space). */
  predicate IsSpace(c: char) {
    var n := c as int;
    n == 32 || 9 <= n <= 13 || 28 <= n <= 31
  }

  function LowerChar(c: char): char {
    if 'A' <= c <= 'Z' then (c as int + 32) as char else c
  }

  function UpperChar(c: char): char {
    if 'a' <= c <= 'z' then (c as int - 32) as char else c
  }

  /** `str.lower()` restricted to ASCII letters. */
  function Lower(s: string): string {
    seq(|s|, i requires 0 <= i < |s| => LowerChar(s[i]))
  }

  /** `str.upper()` restricted to ASCII letters. */
  function Upper(s: string): string {
    seq(|s|, i requires 0 <= i < |s| => UpperChar(s[i]))
  }

  /** `sub in s`: `sub` occurs in `s` as a contiguous block (the empty string
      occurs everywhere). */
  predicate Contains(s: string, sub: string) {
    exists i | 0 <= i <= |s| - |sub| :: OccursAt(s, sub, i)
  }

  /** `sub` is the block of `s` that starts at index `i`. */
  predicate OccursAt(s: string, sub: string, i: int) {
    0 <= i && i + |sub| <= |s| && s[i..i + |sub|] == sub
  }

  lemma ContainsAt(s: string, sub: string, i: nat)
    requires OccursAt(s, sub, i)
    ensures Contains(s, sub)
  {
  }

  /** An occurrence survives putting text in front. */
  lemma ContainsInSuffix(pre: string, s: string, sub: string)
    requires Contains(s, sub)
    ensures Contains(pre + s, sub)
  {
    var i :| 0 <= i <= |s| - |sub| && OccursAt(s, sub, i);
    assert (pre + s)[|pre| + i..|pre| + i + |sub|] == s[i..i + |sub|];
    assert OccursAt(pre + s, sub, |pre| + i);
  }

  /** A string occurs in any string that has it as a block. */
  lemma {:induction false} ContainsInConcat(a: string, b: string, c: string)
    ensures Contains(a + b + c, b)
  {
    var s := a + b + c;
    assert s[|a|..|a| + |b|] == b;
    assert OccursAt(s, b, |a|);
    ContainsAt(s, b, |a|);
  }

  function TrimStart(s: string): string {
    if s != [] && IsSpace(s[0]) then TrimStart(s[1..]) else s
  }

  function TrimEnd(s: string): string {
    if s != [] && IsSpace(s[|s| - 1]) then TrimEnd(s[..|s| - 1]) else s
  }

  /** `str.strip()`. */
  function Strip(s: string): string {
    TrimEnd(TrimStart(s))
  }

  predicate AllSpace(s: string) {
    forall i :: 0 <= i < |s| ==> IsSpace(s[i])
  }

  lemma {:induction false} TrimStartAllSpace(s: string)
    ensures TrimStart(s) == [] <==> AllSpace(s)
    ensures TrimStart(s) != [] ==> !IsSpace(TrimStart(s)[0])
  {
    if s != [] && IsSpace(s[0]) {
      TrimStartAllSpace(s[1..]);
      if AllSpace(s[1..]) {
        forall i | 0 <= i < |s| ensures IsSpace(s[i]) {
          if i > 0 { assert s[i] == s[1..][i - 1]; }
        }
      }
      if AllSpace(s) {
        forall i | 0 <= i < |s[1..]| ensures IsSpace(s[1..][i]) {
          assert s[1..][i] == s[i + 1];
        }
      }
    }
  }

  lemma {:induction false} TrimEndEmpty(s: string)
    ensures TrimEnd(s) == [] <==> AllSpace(s)
  {
    if s != [] && IsSpace(s[|s| - 1]) {
      var t := s[..|s| - 1];
      TrimEndEmpty(t);
      if AllSpace(t) {
        forall i | 0 <= i < |s| ensures IsSpace(s[i]) {
          if i < |s| - 1 { assert s[i] == t[i]; }
        }
      }
      if AllSpace(s) {
        forall i | 0 <= i < |t| ensures IsSpace(t[i]) {
          assert t[i] == s[i];
        }
      }
    }
  }

  /** A stripped string is empty exactly when the input is blank: this is what
      makes `if model_number:` after `.strip()` a "field is blank" test. */
  lemma StripEmpty(s: string)
    ensures Strip(s) == [] <==> AllSpace(s)
  {
    TrimStartAllSpace(s);
    var t := TrimStart(s);
    TrimEndEmpty(t);
    if t != [] {
      assert !IsSpace(t[0]);
      assert !AllSpace(t);
    }
  }

  predicate NoSpace(w: string) {
    forall i :: 0 <= i < |w| ==> !IsSpace(w[i])
  }

  /** Words of `s` after the pending word `cur`: the worker of `Split`. */
  function SplitFrom(s: string, cur: string): seq<string>
    decreases |s|
  {
    if s == [] then
      (if cur == [] then [] else [cur])
    else if IsSpace(s[0]) then
      (if cur == [] then SplitFrom(s[1..], []) else [cur] + SplitFrom(s[1..], []))
    else
      SplitFrom(s[1..], cur + [s[0]])
  }

  /** `str.split()` with no separator: the maximal runs of non-whitespace. */
  function Split(s: string): seq<string> {
    SplitFrom(s, [])
  }

  lemma {:induction false} SplitFromWords(s: string, cur: string)
    requires NoSpace(cur)
    ensures forall k :: 0 <= k < |SplitFrom(s, cur)| ==>
      SplitFrom(s, cur)[k] != [] && NoSpace(SplitFrom(s, cur)[k])
    ensures SplitFrom(s, cur) == [] <==> cur == [] && AllSpace(s)
    decreases |s|
  {
    if s == [] {
    } else if IsSpace(s[0]) {
      SplitFromWords(s[1..], []);
      if cur == [] {
        if AllSpace(s[1..]) {
          forall i | 0 <= i < |s| ensures IsSpace(s[i]) {
            if i > 0 { assert s[i] == s[1..][i - 1]; }
          }
        }
        if AllSpace(s) {
          forall i | 0 <= i < |s[1..]| ensures IsSpace(s[1..][i]) {
            assert s[1..][i] == s[i + 1];
          }
        }
      }
    } else {
      var next := cur + [s[0]];
      assert NoSpace(next) by {
        forall i | 0 <= i < |next| ensures !IsSpace(next[i]) {
          if i < |cur| { assert next[i] == cur[i]; }
        }
      }
      SplitFromWords(s[1..], next);
      assert !AllSpace(s);
    }
  }

  /** Every word `split` yields is non-empty and free of whitespace, and there
      are no words at all exactly when the input is blank. */
  lemma SplitWords(s: string)
    ensures forall k :: 0 <= k < |Split(s)| ==> Split(s)[k] != [] && NoSpace(Split(s)[k])
    ensures Split(s) == [] <==> AllSpace(s)
  {
    SplitFromWords(s, []);
  }

  /** `sep.join(parts)`. */
  function Join(parts: seq<string>, sep: string): string
    decreases |parts|
  {
    if |parts| == 0 then ""
    else if |parts| == 1 then parts[0]
    else parts[0] + sep + Join(parts[1..], sep)
  }

  /** Every joined part can be found in the joined string. */
  lemma {:induction false} JoinContainsParts(parts: seq<string>, sep: string, k: nat)
    requires k < |parts|
    ensures Contains(Join(parts, sep), parts[k])
    decreases |parts|
  {
    if |parts| == 1 {
      ContainsInConcat("", parts[0], "");
      assert "" + parts[0] + "" == parts[0];
    } else if k == 0 {
      ContainsInConcat("", parts[0], sep + Join(parts[1..], sep));
      assert parts[0] + sep + Join(parts[1..], sep) == "" + parts[0] + (sep + Join(parts[1..], sep));
    } else {
      JoinContainsParts(parts[1..], sep, k - 1);
      var j := Join(parts[1..], sep);
      var i :| 0 <= i <= |j| - |parts[k]| && OccursAt(j, parts[k], i);
      var pre := parts[0] + sep;
      var whole := pre + j;
      assert whole == Join(parts, sep);
      assert whole[|pre| + i..|pre| + i + |parts[k]|] == j[i..i + |parts[k]|];
      assert OccursAt(whole, parts[k], |pre| + i);
      ContainsAt(whole, parts[k], |pre| + i);
    }
  }

  /** Python's string comparison `a <= b`: lexicographic by code point, a
      proper prefix coming first. */
  predicate LexLe(a: string, b: string) {
    a == [] || (b != [] && (a[0] < b[0] || (a[0] == b[0] && LexLe(a[1..], b[1..]))))
  }

  lemma {:induction false} LexLeRefl(a: string)
    ensures LexLe(a, a)
  {
    if a != [] { LexLeRefl(a[1..]); }
  }

  lemma {:induction false} LexLeTotal(a: string, b: string)
    ensures LexLe(a, b) || LexLe(b, a)
  {
    if a != [] && b != [] && a[0] == b[0] { LexLeTotal(a[1..], b[1..]); }
  }

  lemma {:induction false} LexLeTrans(a: string, b: string, c: string)
    requires LexLe(a, b) && LexLe(b, c)
    ensures LexLe(a, c)
  {
    if a != [] && b != [] && c != [] && a[0] == b[0] && b[0] == c[0] {
      LexLeTrans(a[1..], b[1..], c[1..]);
    }
  }

  lemma {:induction false} LexLeAntisym(a: string, b: string)
    requires LexLe(a, b) && LexLe(b, a)
    ensures a == b
  {
    if a != [] && b != [] {
      LexLeAntisym(a[1..], b[1..]);
      assert a == [a[0]] + a[1..];
      assert b == [b[0]] + b[1..];
    }
  }
}
