/** The std::string operations the serial drivers use. */
module Text {
  import opened Seqs

  /** `s.rfind(p, 0) == 0`. */
  predicate StartsWith(s: string, p: string) {
    |p| <= |s| && s[..|p|] == p
  }

  /** `s.find(c)`, with the length in place of npos. */
  function FindChar(s: string, c: char): (k: nat)
    ensures k <= |s| && c !in s[..k]
    ensures k < |s| ==> s[k] == c
  {
    if s == "" || s[0] == c then 0
    else
      var k := 1 + FindChar(s[1..], c);
      assert s[..k] == [s[0]] + s[1..][..k - 1];
      k
  }

  lemma FindCharAt(a: string, c: char, b: string)
    requires c !in a
    ensures FindChar(a + [c] + b, c) == |a|
  {
    var s := a + [c] + b;
    assert forall i :: 0 <= i < |a| ==> s[i] == a[i];
    assert forall i :: |a| < i <= |s| ==> s[..i][|a|] == c;
    var k := FindChar(s, c);
    assert k >= |a|;
  }

  /** `s.find(p)`, with -1 in place of npos. */
  function Find(s: string, p: string): (k: int)
    ensures k == -1 || 0 <= k <= |s| - |p|
  {
    if StartsWith(s, p) then 0
    else if s == "" then -1
    else
      var k := Find(s[1..], p);
      if k == -1 then -1 else k + 1
  }

  /** It is the first place p occurs at, or none. */
  lemma {:induction false} FindFirst(s: string, p: string)
    ensures var k := Find(s, p);
      && (k != -1 ==> StartsWith(s[k..], p))
      && forall j :: 0 <= j < (if k == -1 then |s| + 1 else k) ==> !StartsWith(s[j..], p)
  {
    assert s[0..] == s;
    if StartsWith(s, p) || s == "" {
    } else {
      FindFirst(s[1..], p);
      assert forall j :: 1 <= j <= |s| ==> s[j..] == s[1..][j - 1..];
    }
  }

  /** std::remove of one character, with the tail erased. */
  function Remove(s: string, c: char): (r: string)
    ensures c !in r
    ensures c !in s ==> r == s
  {
    if s == "" then ""
    else if s[0] == c then Remove(s[1..], c)
    else
      assert c !in s ==> c !in s[1..];
      [s[0]] + Remove(s[1..], c)
  }

  lemma RemoveFirst(x: char, s: string, c: char)
    ensures Remove([x] + s, c) == (if x == c then "" else [x]) + Remove(s, c)
  {
    assert ([x] + s)[1..] == s;
  }

  lemma RemoveConcatFirst(x: char, a: string, b: string, c: char)
    requires Remove(a + b, c) == Remove(a, c) + Remove(b, c)
    ensures Remove(([x] + a) + b, c) == Remove([x] + a, c) + Remove(b, c)
  {
    Associative([x], a, b);
    RemoveFirst(x, a, c);
    RemoveFirst(x, a + b, c);
    Associative(if x == c then "" else [x], Remove(a, c), Remove(b, c));
  }

  lemma {:induction false} RemoveConcat(a: string, b: string, c: char)
    ensures Remove(a + b, c) == Remove(a, c) + Remove(b, c)
  {
    if a == "" {
      assert a + b == b;
    } else {
      RemoveConcat(a[1..], b, c);
      assert [a[0]] + a[1..] == a;
      RemoveConcatFirst(a[0], a[1..], b, c);
    }
  }

  lemma RemoveOne(a: string, c: char, b: string)
    requires c !in a && c !in b
    ensures Remove(a + [c] + b, c) == a + b
  {
    RemoveConcat(a + [c], b, c);
    RemoveConcat(a, [c], c);
    assert Remove([c], c) == Remove("", c) == "" by { assert [c][1..] == ""; }
    assert a + "" == a;
  }
}
