/** The few string functions of Go's standard library the topic code uses. */
module Text {

  predicate OccursAt(s: string, p: string, i: nat) {
    i + |p| <= |s| && s[i..i + |p|] == p
  }

  /** `strings.Contains`. */
  predicate Contains(s: string, p: string) {
    exists i :: 0 <= i <= |s| - |p| && OccursAt(s, p, i)
  }

  /** `strings.Split(s, "/")`. */
  function Split(s: string): (parts: seq<string>)
    ensures parts != []
  {
    if s == "" then [""]
    else
      var rest := Split(s[1..]);
      if s[0] == '/' then [""] + rest else [[s[0]] + rest[0]] + rest[1..]
  }

  function Slashes(s: string): nat {
    if s == "" then 0 else Slashes(s[1..]) + if s[0] == '/' then 1 else 0
  }

  predicate NoSlash(s: string) {
    '/' !in s
  }

  predicate IsDigit(c: char) {
    '0' <= c <= '9'
  }

  /** The `%d` verb on an unsigned integer. */
  function Decimal(n: nat): string {
    if n < 10 then ['0' + n as char] else Decimal(n / 10) + ['0' + (n % 10) as char]
  }

  /** The reader that inverts `Decimal`. */
  function ReadDecimal(s: string): int {
    if s == "" then 0 else ReadDecimal(s[..|s| - 1]) * 10 + (s[|s| - 1] as int - '0' as int)
  }

  lemma {:induction false} DecimalRoundTrip(n: nat)
    ensures ReadDecimal(Decimal(n)) == n && Decimal(n) != ""
    ensures forall c :: c in Decimal(n) ==> IsDigit(c)
  {
    var s := Decimal(n);
    if n < 10 {
      assert s[..0] == "";
      assert ReadDecimal("") == 0;
    } else {
      DecimalRoundTrip(n / 10);
      assert s[..|s| - 1] == Decimal(n / 10);
    }
  }

  /** No leading zeros: one digit below ten, and otherwise a first digit that is not zero. */
  lemma {:induction false} DecimalIsPlain(n: nat)
    ensures |Decimal(n)| == 1 <==> n < 10
    ensures n >= 10 ==> |Decimal(n)| >= 2 && Decimal(n)[0] != '0'
    ensures n > 0 ==> Decimal(n)[0] != '0'
  {
    if n >= 10 {
      DecimalIsPlain(n / 10);
    }
  }

  /** A text without a slash is its own only part. */
  lemma {:induction false} SplitWhole(s: string)
    requires NoSlash(s)
    ensures Split(s) == [s]
  {
    if s != "" {
      SplitWhole(s[1..]);
      assert [s[0]] + s[1..] == s;
    }
  }

  lemma {:induction false} SplitCount(s: string)
    ensures |Split(s)| == Slashes(s) + 1
  {
    if s != "" {
      SplitCount(s[1..]);
    }
  }

  /** The text before the first slash is the first part. */
  lemma {:induction false} SplitFirst(a: string, b: string)
    requires NoSlash(a)
    ensures Split(a + "/" + b) == [a] + Split(b)
  {
    var s := a + "/" + b;
    if a == "" {
      assert s[1..] == b;
    } else {
      assert s[1..] == a[1..] + "/" + b;
      SplitFirst(a[1..], b);
      assert [s[0]] + a[1..] == a;
    }
  }

  // ---------------------------------------------------------------- substrings

  lemma TooLong(s: string, p: string)
    requires |p| > |s|
    ensures !Contains(s, p)
  {
  }

  lemma ContainsChars(s: string, p: string, c: char)
    requires Contains(s, p) && c in p
    ensures c in s
  {
    var i :| 0 <= i <= |s| - |p| && OccursAt(s, p, i);
    var k :| 0 <= k < |p| && p[k] == c;
    assert s[i..i + |p|][k] == s[i + k];
  }

  lemma ContainsItself(s: string)
    ensures Contains(s, s)
  {
    assert OccursAt(s, s, 0);
  }

  lemma OccurrenceChars(s: string, p: string, i: nat)
    requires OccursAt(s, p, i)
    ensures forall x :: i <= x < i + |p| ==> s[x] in p
  {
    forall x | i <= x < i + |p| ensures s[x] in p {
      assert s[i..i + |p|][x - i] == s[x];
    }
  }

  lemma ContainsInPart(a: string, b: string, c: string, p: string)
    requires Contains(b, p)
    ensures Contains(a + b + c, p)
  {
    var s := a + b + c;
    var i :| 0 <= i <= |b| - |p| && OccursAt(b, p, i);
    assert s[|a|..|a| + |b|] == b;
    assert s[|a| + i..|a| + i + |p|] == b[i..i + |p|];
    assert OccursAt(s, p, |a| + i);
  }

  lemma OccursInOneSide(a: string, b: string, p: string, i: nat)
    requires NoSlash(p) && p != "" && OccursAt(a + "/" + b, p, i)
    ensures Contains(a, p) || Contains(b, p)
  {
    var s := a + "/" + b;
    OccurrenceChars(s, p, i);
    assert s[|a|] == '/';
    if |a| < i {
      var k := i - |a| - 1;
      assert s[|a| + 1..] == b;
      assert b[k..k + |p|] == s[i..i + |p|];
      assert OccursAt(b, p, k);
    } else {
      assert a[i..i + |p|] == s[i..i + |p|];
      assert OccursAt(a, p, i);
    }
  }

  /** A pattern without a slash occurs inside one segment. */
  lemma ContainsAcrossSlash(a: string, b: string, p: string)
    requires NoSlash(p) && p != ""
    ensures Contains(a + "/" + b, p) <==> Contains(a, p) || Contains(b, p)
  {
    var s := a + "/" + b;
    if Contains(s, p) {
      var i :| 0 <= i <= |s| - |p| && OccursAt(s, p, i);
      OccursInOneSide(a, b, p, i);
    }
    if Contains(a, p) {
      assert s == "" + a + ("/" + b);
      ContainsInPart("", a, "/" + b, p);
    }
    if Contains(b, p) {
      assert s == a + "/" + b + "";
      ContainsInPart(a + "/", b, "", p);
    }
  }

  /** A pattern cannot reach into a tail that lacks its last character. */
  lemma ContainsBeforeTail(a: string, tail: string, p: string)
    requires p != "" && p[|p| - 1] !in tail
    ensures Contains(a + tail, p) <==> Contains(a, p)
  {
    var s := a + tail;
    if Contains(s, p) {
      var i :| 0 <= i <= |s| - |p| && OccursAt(s, p, i);
      assert s[i..i + |p|][|p| - 1] == s[i + |p| - 1];
      assert i + |p| <= |a|;
      assert a[i..i + |p|] == s[i..i + |p|];
      assert OccursAt(a, p, i);
    }
    if Contains(a, p) {
      assert s == "" + a + tail;
      ContainsInPart("", a, tail, p);
    }
  }
}
