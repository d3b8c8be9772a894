/** The result values the explorer shows and `formatOutput`, which renders them.
    Values are restricted to the kinds a read call yields besides plain objects
    and floating-point numbers: null, bigint, string, boolean and arrays. */
module Output {
  import opened Text
  import opened Decimal

  datatype Value = Null | BigInt(n: int) | Str(s: string) | Bool(b: bool) | Arr(elems: seq<Value>)

  /** `formatOutput(value)`. */
  function FormatOutput(v: Value): string {
    match v
    case Null => "null"
    case BigInt(n) => IntToDecimal(n)
    case Str(s) => s
    case Bool(b) => if b then "true" else "false"
    case Arr(vs) => "[" + Join(FormatAll(vs), ", ") + "]"
  }

  /** `value.map(formatOutput)`. */
  function FormatAll(vs: seq<Value>): (r: seq<string>)
    ensures |r| == |vs|
    ensures forall i :: 0 <= i < |vs| ==> r[i] == FormatOutput(vs[i])
  {
    seq(|vs|, i requires 0 <= i < |vs| => FormatOutput(vs[i]))
  }

  /** A bigint is rendered as its decimal numeral, which reads back as the same
      integer. */
  lemma BigIntRoundTrip(n: int)
    ensures IsIntDecimal(FormatOutput(BigInt(n)))
    ensures ParseInt(FormatOutput(BigInt(n))) == n
  {
    IntToDecimalRoundTrip(n);
  }

  /** Distinct bigints are rendered differently. */
  lemma BigIntInjective(m: int, n: int)
    ensures FormatOutput(BigInt(m)) == FormatOutput(BigInt(n)) ==> m == n
  {
    BigIntRoundTrip(m);
    BigIntRoundTrip(n);
  }

  lemma EmptyArray()
    ensures FormatOutput(Arr([])) == "[]"
  {
  }

  lemma NestedElements()
    ensures FormatAll([BigInt(-5), Bool(true), Arr([]), Null]) == ["-5", "true", "[]", "null"]
  {
    var vs := [BigInt(-5), Bool(true), Arr([]), Null];
    assert IntToDecimal(-5) == "-5" by {
      assert NatToDecimal(5) == "5";
    }
    assert FormatOutput(vs[2]) == "[]" by {
      EmptyArray();
    }
  }

  lemma NestedJoin()
    ensures Join(["-5", "true", "[]", "null"], ", ") == "-5, true, [], null"
  {
    var p3 := ["[]", "null"];
    var p2 := ["true"] + p3;
    var p1 := ["-5"] + p2;
    assert Join(p3, ", ") == "[], null" by {
      assert p3[1..] == ["null"];
    }
    assert Join(p2, ", ") == "true, [], null" by {
      assert p2[1..] == p3;
    }
    assert Join(p1, ", ") == "-5, true, [], null" by {
      assert p1[1..] == p2;
    }
    assert p1 == ["-5", "true", "[]", "null"];
  }

  /** Elements are separated by a comma and one space. */
  lemma NestedExample()
    ensures FormatOutput(Arr([BigInt(-5), Bool(true), Arr([]), Null])) == "[-5, true, [], null]"
  {
    var vs := [BigInt(-5), Bool(true), Arr([]), Null];
    NestedElements();
    NestedJoin();
    assert FormatOutput(Arr(vs)) == "[" + "-5, true, [], null" + "]";
  }

  /** Rendering is ambiguous: the string `"null"` and null look alike, and so do
      a string of digits and a bigint. */
  lemma RenderingIsAmbiguous()
    ensures FormatOutput(Str("null")) == FormatOutput(Null)
    ensures FormatOutput(Str("42")) == FormatOutput(BigInt(42))
  {
    assert NatToDecimal(42) == "42" by {
      assert NatToDecimal(4) == "4";
    }
  }

  /** The number of occurrences of `c` in `s`. */
  function Count(s: string, c: char): nat {
    if |s| == 0 then 0 else (if s[0] == c then 1 else 0) + Count(s[1..], c)
  }

  lemma {:induction false} CountAppend(a: string, b: string, c: char)
    ensures Count(a + b, c) == Count(a, c) + Count(b, c)
    decreases |a|
  {
    if |a| > 0 {
      assert (a + b)[1..] == a[1..] + b;
      CountAppend(a[1..], b, c);
    } else {
      assert a + b == b;
    }
  }

  /** A value with no string inside it: its rendering comes from the formatter
      alone. */
  predicate StringFree(v: Value) {
    match v
    case Str(_) => false
    case Arr(vs) => forall i :: 0 <= i < |vs| ==> StringFree(vs[i])
    case _ => true
  }

  /** A string made only of characters other than brackets. */
  predicate BracketFree(s: string) {
    forall i :: 0 <= i < |s| ==> s[i] != '[' && s[i] != ']'
  }

  lemma {:induction false} BracketFreeCount(s: string)
    requires BracketFree(s)
    ensures Count(s, '[') == 0 && Count(s, ']') == 0
    decreases |s|
  {
    if |s| > 0 {
      BracketFreeCount(s[1..]);
    }
  }

  lemma DecimalBracketFree(n: int)
    ensures BracketFree(IntToDecimal(n))
  {
    var s := IntToDecimal(n);
    forall i | 0 <= i < |s|
      ensures s[i] != '[' && s[i] != ']'
    {
      assert s[i] == '-' || IsDigit(s[i]);
    }
  }

  /** Strings whose `[` and `]` counts agree. */
  predicate Balanced(s: string) {
    Count(s, '[') == Count(s, ']')
  }

  lemma {:induction false} JoinBalanced(parts: seq<string>, sep: string)
    requires forall i :: 0 <= i < |parts| ==> Balanced(parts[i])
    requires Balanced(sep)
    ensures Balanced(Join(parts, sep))
    decreases |parts|
  {
    if |parts| == 0 {
    } else if |parts| == 1 {
    } else {
      JoinBalanced(parts[1..], sep);
      CountAppend(parts[0] + sep, Join(parts[1..], sep), '[');
      CountAppend(parts[0] + sep, Join(parts[1..], sep), ']');
      CountAppend(parts[0], sep, '[');
      CountAppend(parts[0], sep, ']');
    }
  }

  /** Without strings inside, every `[` the formatter writes is matched by a
      `]`: arrays are the only source of brackets and each contributes one of
      each. */
  lemma {:induction false} StringFreeBalanced(v: Value)
    requires StringFree(v)
    ensures Balanced(FormatOutput(v))
    decreases v
  {
    match v
    case Null =>
      BracketFreeCount("null");
    case BigInt(n) =>
      DecimalBracketFree(n);
      BracketFreeCount(IntToDecimal(n));
    case Bool(b) =>
      BracketFreeCount("true");
      BracketFreeCount("false");
    case Arr(vs) =>
      var parts := FormatAll(vs);
      forall i | 0 <= i < |parts|
        ensures Balanced(parts[i])
      {
        StringFreeBalanced(vs[i]);
      }
      BracketFreeCount(", ");
      JoinBalanced(parts, ", ");
      var inner := Join(parts, ", ");
      CountAppend("[", inner, '[');
      CountAppend("[", inner, ']');
      CountAppend("[" + inner, "]", '[');
      CountAppend("[" + inner, "]", ']');
  }
}
