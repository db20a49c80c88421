/**
 The contact section's phone-number formatter: `formatPhoneForWhatsApp` turns
 a displayed phone number into the digits-only form a WhatsApp link expects,
 by deleting every `+` and then every whitespace character. (The page's
 WhatsApp button does not call it: it opens a fixed link.)
 */
module ContactSection {

  /** The characters the regular-expression class `\s` matches in
      JavaScript: the ECMAScript WhiteSpace code points (tab, vertical tab,
      form feed, the byte-order mark and the Unicode space separators) and
      the LineTerminator code points (line feed, carriage return, line
      separator, paragraph separator). */
  predicate IsJsWhitespace(c: char)
  {
    || c == '\t' || c == '\n' || c == '\U{000B}' || c == '\U{000C}' || c == '\r'
    || c == ' ' || c == '\U{00A0}' || c == '\U{1680}'
    || ('\U{2000}' <= c <= '\U{200A}')
    || c == '\U{2028}' || c == '\U{2029}' || c == '\U{202F}' || c == '\U{205F}'
    || c == '\U{3000}' || c == '\U{FEFF}'
  }

  /** `s.replace(/\+/g, "")`: every plus sign deleted, the rest in order. */
  function StripPlus(s: string): (r: string)
    ensures '+' !in r
    ensures |r| <= |s|
    ensures forall c :: c in r <==> c in s && c != '+'
  {
    if |s| == 0 then []
    else if s[0] == '+' then StripPlus(s[1..])
    else [s[0]] + StripPlus(s[1..])
  }

  /** `s.replace(/\s/g, "")`: every whitespace character deleted, the rest
      in order. */
  function StripWhitespace(s: string): (r: string)
    ensures forall i :: 0 <= i < |r| ==> !IsJsWhitespace(r[i])
    ensures |r| <= |s|
    ensures forall c :: c in r <==> c in s && !IsJsWhitespace(c)
  {
    if |s| == 0 then []
    else if IsJsWhitespace(s[0]) then StripWhitespace(s[1..])
    else [s[0]] + StripWhitespace(s[1..])
  }

  /** The formatter as written: the plus signs go first, then the whitespace. */
  function FormatPhoneForWhatsApp(phone: string): (r: string)
    ensures '+' !in r
    ensures forall i :: 0 <= i < |r| ==> !IsJsWhitespace(r[i])
    ensures |r| <= |phone|
    ensures forall c :: c in r <==> c in phone && Kept(c)
  {
    StripWhitespace(StripPlus(phone))
  }

  /** A character that survives formatting. */
  predicate Kept(c: char)
  {
    c != '+' && !IsJsWhitespace(c)
  }

  /** The reference definition: the characters of `s` that are neither a
      plus sign nor whitespace, in their original order, in one pass. */
  function KeepOnly(s: string): string
  {
    if |s| == 0 then []
    else if Kept(s[0]) then [s[0]] + KeepOnly(s[1..])
    else KeepOnly(s[1..])
  }

  /** Stripping whitespace distributes over a leading character. */
  lemma StripWhitespaceCons(c: char, s: string)
    ensures StripWhitespace([c] + s) ==
      (if IsJsWhitespace(c) then [] else [c]) + StripWhitespace(s)
  {
    assert ([c] + s)[0] == c;
    assert ([c] + s)[1..] == s;
  }

  /** The two passes delete exactly the characters the one-pass filter
      deletes and keep the others in order. */
  lemma {:induction false} FormatIsFilter(phone: string)
    ensures FormatPhoneForWhatsApp(phone) == KeepOnly(phone)
    decreases |phone|
  {
    if |phone| > 0 {
      FormatIsFilter(phone[1..]);
      if phone[0] != '+' {
        StripWhitespaceCons(phone[0], StripPlus(phone[1..]));
      }
    }
  }

  /** Filtering twice is filtering once. */
  lemma {:induction false} KeepOnlyIdempotent(s: string)
    ensures KeepOnly(KeepOnly(s)) == KeepOnly(s)
    decreases |s|
  {
    if |s| > 0 {
      KeepOnlyIdempotent(s[1..]);
      if Kept(s[0]) {
        var t := [s[0]] + KeepOnly(s[1..]);
        assert t[0] == s[0] && t[1..] == KeepOnly(s[1..]);
      }
    }
  }

  /** Formatting an already formatted number changes nothing. */
  lemma FormatIdempotent(phone: string)
    ensures FormatPhoneForWhatsApp(FormatPhoneForWhatsApp(phone)) == FormatPhoneForWhatsApp(phone)
  {
    FormatIsFilter(phone);
    FormatIsFilter(KeepOnly(phone));
    KeepOnlyIdempotent(phone);
  }

  /** The filter keeps the length exactly when every character is kept, and
      that is exactly when it leaves its input unchanged. */
  lemma {:induction false} KeepOnlyLength(s: string)
    ensures |KeepOnly(s)| <= |s|
    ensures |KeepOnly(s)| == |s| <==> forall i :: 0 <= i < |s| ==> Kept(s[i])
    ensures KeepOnly(s) == s <==> forall i :: 0 <= i < |s| ==> Kept(s[i])
    decreases |s|
  {
    if |s| > 0 {
      KeepOnlyLength(s[1..]);
      assert forall i :: 1 <= i < |s| ==> s[i] == s[1..][i - 1];
      if !Kept(s[0]) {
        assert |KeepOnly(s)| < |s|;
      }
    }
  }

  /** The formatted number is exactly as long as the input when, and only
      when, the input holds no plus sign and no whitespace; otherwise it is
      strictly shorter. */
  lemma FormatLength(phone: string)
    ensures |FormatPhoneForWhatsApp(phone)| <= |phone|
    ensures |FormatPhoneForWhatsApp(phone)| == |phone| <==>
      forall i :: 0 <= i < |phone| ==> phone[i] != '+' && !IsJsWhitespace(phone[i])
    ensures FormatPhoneForWhatsApp(phone) == phone <==>
      forall i :: 0 <= i < |phone| ==> phone[i] != '+' && !IsJsWhitespace(phone[i])
  {
    FormatIsFilter(phone);
    KeepOnlyLength(phone);
  }
}
