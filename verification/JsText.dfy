/** Strings as the browser compares them: sequences of UTF-16 code units in lexicographic order. */
module JsText {
  newtype CodeUnit = u: int | 0 <= u < 0x1_0000

  type JsString = seq<CodeUnit>

  /** The `<` of two strings; a proper prefix comes first. */
  predicate Less(a: JsString, b: JsString)
    decreases |a|
  {
    && b != []
    && (a == [] || a[0] < b[0] || (a[0] == b[0] && Less(a[1..], b[1..])))
  }

  lemma {:induction false} LessIrreflexive(a: JsString)
    ensures !Less(a, a)
  {
    if a != [] { LessIrreflexive(a[1..]); }
  }

  lemma {:induction false} LessTransitive(a: JsString, b: JsString, c: JsString)
    requires Less(a, b) && Less(b, c)
    ensures Less(a, c)
  {
    if a != [] && a[0] == b[0] && b[0] == c[0] { LessTransitive(a[1..], b[1..], c[1..]); }
  }

  lemma {:induction false} LessTotal(a: JsString, b: JsString)
    ensures Less(a, b) || a == b || Less(b, a)
  {
    if a != [] && b != [] && a[0] == b[0] {
      LessTotal(a[1..], b[1..]);
      assert a == [a[0]] + a[1..] && b == [b[0]] + b[1..];
    }
  }

  /** One string is before another exactly if it is a proper prefix of it or smaller at the first place where they differ. */
  lemma {:induction false} LessExactly(a: JsString, b: JsString)
    ensures Less(a, b) <==> (a < b || exists k :: 0 <= k < |a| && k < |b| && a[..k] == b[..k] && a[k] < b[k])
    decreases |a|
  {
    if a != [] && b != [] {
      var x, y := a[1..], b[1..];
      LessExactly(x, y);
      assert a == [a[0]] + x && b == [b[0]] + y;
      if a[0] == b[0] {
        if k :| 0 <= k < |x| && k < |y| && x[..k] == y[..k] && x[k] < y[k] {
          assert a[..k + 1] == [a[0]] + x[..k] && b[..k + 1] == [b[0]] + y[..k] && a[k + 1] < b[k + 1];
        }
        if k :| 0 <= k < |a| && k < |b| && a[..k] == b[..k] && a[k] < b[k] {
          assert k > 0 && x[..k - 1] == a[..k][1..] && y[..k - 1] == b[..k][1..] && x[k - 1] < y[k - 1];
        }
      } else if a[0] < b[0] {
        assert a[..0] == b[..0];
      } else {
        forall k | 0 < k < |a| && k < |b| ensures a[..k] != b[..k] { assert a[..k][0] != b[..k][0]; }
      }
    }
  }

  predicate InRange(u: CodeUnit, low: char, high: char) {
    low as int <= u as int <= high as int
  }

  predicate IsOneOf(u: CodeUnit, allowed: string) {
    exists i :: 0 <= i < |allowed| && allowed[i] as int == u as int
  }

  predicate IsLowerOrDigit(u: CodeUnit) {
    InRange(u, 'a', 'z') || InRange(u, '0', '9')
  }

  /** Tab, line feed, form feed, carriage return or space. */
  predicate HasWhitespace(s: JsString) {
    exists i :: 0 <= i < |s| && (s[i] in {9, 10, 12, 13, 32})
  }

  /** The code units of an ASCII literal. */
  function Ascii(s: string): JsString
    requires forall i :: 0 <= i < |s| ==> s[i] as int < 128
  {
    seq(|s|, i requires 0 <= i < |s| => s[i] as int as CodeUnit)
  }
}
