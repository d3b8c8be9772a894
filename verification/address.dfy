/** `isValidAddress`: the test `/^0x[0-9a-fA-F]{40}$/` applied to the address
    field. The pattern has no flags, so `$` matches only at the end of the
    input. */
module Address {
  import opened Text

  /** 40 hexadecimal digits, in either case. */
  predicate HexBody(h: string) {
    |h| == 40 && forall i :: 0 <= i < |h| ==> IsHexDigit(h[i])
  }

  /** The language of the pattern: `0x` followed by a hex body. */
  ghost predicate Matches(s: string) {
    exists h :: s == "0x" + h && HexBody(h)
  }

  /** The same condition read position by position. */
  predicate ValidAddress(s: string) {
    && |s| == 42
    && s[0] == '0' && s[1] == 'x'
    && forall i :: 2 <= i < 42 ==> IsHexDigit(s[i])
  }

  /** The position-wise reading accepts exactly the pattern's language. */
  lemma ValidAddressMatches(s: string)
    ensures ValidAddress(s) <==> Matches(s)
  {
    if ValidAddress(s) {
      var h := s[2..];
      assert s == "0x" + h;
      assert HexBody(h) by {
        forall i | 0 <= i < |h|
          ensures IsHexDigit(h[i])
        {
          assert h[i] == s[i + 2];
        }
      }
    }
    if Matches(s) {
      var h :| s == "0x" + h && HexBody(h);
      forall i | 2 <= i < 42
        ensures IsHexDigit(s[i])
      {
        assert s[i] == h[i - 2];
      }
    }
  }

  /** The regular-expression test, scanning the input once. */
  method IsValidAddress(address: string) returns (ok: bool)
    ensures ok <==> ValidAddress(address)
  {
    if |address| != 42 || address[0] != '0' || address[1] != 'x' {
      return false;
    }
    ok := true;
    var i := 2;
    while i < 42
      invariant 2 <= i <= 42
      invariant ok <==> forall k :: 2 <= k < i ==> IsHexDigit(address[k])
    {
      if !IsHexDigit(address[i]) {
        ok := false;
      }
      i := i + 1;
    }
  }

  /** Only the lower-case prefix `0x` is accepted. */
  lemma UpperPrefixRejected(h: string)
    ensures !ValidAddress("0X" + h)
  {
    if |"0X" + h| == 42 {
      assert ("0X" + h)[1] == 'X';
    }
  }

  /** No checksum is checked: lower-casing a valid address keeps it valid, so a
      mixed-case address with a wrong EIP-55 checksum is accepted as well. */
  lemma LowerCaseStaysValid(s: string)
    requires ValidAddress(s)
    ensures ValidAddress(ToLowerAscii(s))
  {
    var t := ToLowerAscii(s);
    forall i | 2 <= i < 42
      ensures IsHexDigit(t[i])
    {
      assert t[i] == LowerChar(s[i]);
    }
  }

  /** The pattern is anchored at both ends: a valid address with a space put
      in front of it, or a newline after it, is no longer accepted. */
  lemma NoPadding(s: string)
    requires ValidAddress(s)
    ensures !ValidAddress(" " + s)
    ensures !ValidAddress(s + "\n")
  {
  }
}
