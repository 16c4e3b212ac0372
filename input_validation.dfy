/**
 * The console's input validator (main.py, `validate_input`): one decision
 * per input type, each a verdict and the message the console shows when the
 * verdict is negative. The regular expressions of the email and phone
 * checks are written out as matchers over ASCII; Python's `$` also matches
 * just before a final line feed, so both accept one trailing "\n".
 */
module Validation {

  import opened Wrappers
  import opened Text

  /** The validator's answer: the verdict, and the message for a negative one (returned in every case). */
  datatype Verdict = Verdict(valid: bool, message: string)

  const EmailMessage: string := "Please enter a valid email address"
  const PhoneMessage: string := "Please enter a valid phone number"
  const AgeRangeMessage: string := "Please enter a valid age between 18 and 120"
  const AgeNumberMessage: string := "Please enter a valid number for age"
  const NameMessage: string := "Name cannot be empty"
  const CountryMessage: string := "Please enter a valid country name"
  const BudgetMessage: string := "Please select A, B, or C for budget range"
  const TimelineMessage: string := "Please select A, B, C, or D for timeline"

  const MinAge: int := 18
  const MaxAge: int := 120

  /** The input types the validator knows; every other one is accepted as it is. */
  const CheckedTypes: set<string> := {"email", "phone", "age", "name", "country", "budget", "timeline"}

  /** `\d` */
  predicate IsDigit(c: char)
  {
    '0' <= c <= '9'
  }

  /** `\w` */
  predicate IsWordChar(c: char)
  {
    'a' <= c <= 'z' || 'A' <= c <= 'Z' || IsDigit(c) || c == '_'
  }

  /** `[\w\.-]` */
  predicate IsEmailChar(c: char)
  {
    IsWordChar(c) || c == '.' || c == '-'
  }

  predicate AllDigits(s: string)
  {
    forall i :: 0 <= i < |s| ==> IsDigit(s[i])
  }

  predicate AllWordChars(s: string)
  {
    forall i :: 0 <= i < |s| ==> IsWordChar(s[i])
  }

  predicate AllEmailChars(s: string)
  {
    forall i :: 0 <= i < |s| ==> IsEmailChar(s[i])
  }

  /** The position of the first `c` in `s`. */
  function IndexOf(s: string, c: char): (r: Option<nat>)
    ensures r.Some? ==> r.value < |s| && s[r.value] == c && forall k :: 0 <= k < r.value ==> s[k] != c
    ensures r.None? ==> forall k :: 0 <= k < |s| ==> s[k] != c
  {
    if s == [] then None
    else if s[0] == c then Some(0)
    else match IndexOf(s[1..], c)
      case Some(j) => Some(j + 1)
      case None => None
  }

  /** The position of the last `c` in `s`. */
  function LastIndexOf(s: string, c: char): (r: Option<nat>)
    ensures r.Some? ==> r.value < |s| && s[r.value] == c && forall k :: r.value < k < |s| ==> s[k] != c
    ensures r.None? ==> forall k :: 0 <= k < |s| ==> s[k] != c
  {
    if s == [] then None
    else if s[|s| - 1] == c then Some(|s| - 1)
    else LastIndexOf(s[..|s| - 1], c)
  }

  /**
   * `[\w\.-]+@[\w\.-]+\.\w+` matching all of `s`: the local part runs up to
   * the first `@`, and the domain after it ends in a dot followed by word
   * characters only.
   */
  predicate EmailBody(s: string)
  {
    match IndexOf(s, '@')
    case None => false
    case Some(at) =>
      var domain := s[at + 1..];
      && at > 0 && AllEmailChars(s[..at]) && AllEmailChars(domain)
      && match LastIndexOf(domain, '.')
         case None => false
         case Some(dot) => 0 < dot && dot + 1 < |domain| && AllWordChars(domain[dot + 1..])
  }

  /** `\+?1?\d{9,15}` matching all of `s`. */
  predicate PhoneBody(s: string)
  {
    var number := if s != [] && s[0] == '+' then s[1..] else s;
    AllDigits(number) && (9 <= |number| <= 15 || (|number| == 16 && number[0] == '1'))
  }

  /** `re.match('^' + pattern + '$', s)`: the pattern covers `s`, or `s` without one final line feed. */
  predicate MatchesWhole(s: string, body: string -> bool)
  {
    body(s) || (s != [] && s[|s| - 1] == '\n' && body(s[..|s| - 1]))
  }

  function DigitValue(c: char): nat
    requires IsDigit(c)
  {
    c as int - '0' as int
  }

  /** The number a run of decimal digits denotes. */
  function DigitsValue(ds: string): nat
    requires AllDigits(ds)
  {
    if ds == [] then 0 else DigitsValue(ds[..|ds| - 1]) * 10 + DigitValue(ds[|ds| - 1])
  }

  /**
   * `int(s)` on ASCII: the whitespace `int` skips (space and tab to carriage
   * return, not the separators 0x1C-0x1F that `str.strip` also drops) is
   * removed from both ends, then an optional sign and at least one decimal
   * digit must make up the rest.
   */
  function ParseInt(s: string): Option<int>
  {
    ParseSigned(Strip(s, IntSpace))
  }

  /**
   * The most digits `int` reads from a decimal text: the default of
   * `sys.get_int_max_str_digits()`. Leading zeros count; the sign does not.
   */
  const MaxStrDigits: nat := 4300

  /**
   * An optional sign and at least one decimal digit, making up all of `t`,
   * with no more than `MaxStrDigits` digits.
   */
  function ParseSigned(t: string): Option<int>
  {
    if t == [] then None
    else
      var digits := if t[0] == '-' || t[0] == '+' then t[1..] else t;
      if digits != [] && AllDigits(digits) && |digits| <= MaxStrDigits then
        var magnitude: int := DigitsValue(digits);
        Some(if t[0] == '-' then -magnitude else magnitude)
      else None
  }

  /**
   * `t` is an integer literal denoting `n` that `int` reads: a non-empty run
   * of at most `MaxStrDigits` ASCII digits with value `n`, or `+` or `-`
   * before such a run with value `n` or `-n`.
   */
  predicate SignedNumeral(t: string, n: int)
  {
    || (t != [] && AllDigits(t) && |t| <= MaxStrDigits && DigitsValue(t) == n)
    || (|t| >= 2 && t[0] == '+' && AllDigits(t[1..]) && |t| - 1 <= MaxStrDigits && DigitsValue(t[1..]) == n)
    || (|t| >= 2 && t[0] == '-' && AllDigits(t[1..]) && |t| - 1 <= MaxStrDigits && DigitsValue(t[1..]) == -n)
  }

  /** The sign-and-digits reader accepts exactly the integer literals, with their value. */
  lemma ParseSignedNumeral(t: string, n: int)
    ensures ParseSigned(t) == Some(n) <==> SignedNumeral(t, n)
  {
    if t != [] && (t[0] == '+' || t[0] == '-') {
      assert !IsDigit(t[0]);
      assert !AllDigits(t);
    }
  }

  /**
   * `int(s)` is `n` exactly when `s` stripped of the whitespace `int` skips
   * is an integer literal denoting `n` of at most `MaxStrDigits` digits:
   * so leading zeros, a `+` sign and surrounding spaces, tabs and line breaks
   * (a final line feed among them) are accepted, and a longer run of digits
   * is refused.
   */
  lemma ParseIntNumeral(s: string, n: int)
    ensures ParseInt(s) == Some(n) <==> SignedNumeral(Strip(s, IntSpace), n)
  {
    var t := Strip(s, IntSpace);
    assert ParseInt(s) == ParseSigned(t);
    ParseSignedNumeral(t, n);
  }

  /** `validate_input` */
  function ValidateInput(input: string, inputType: string): (r: Verdict)
    ensures inputType !in CheckedTypes ==> r == Verdict(true, "")
    ensures inputType == "age" ==> r.message == (if ParseInt(input).None? then AgeNumberMessage else AgeRangeMessage)
    ensures inputType == "age" ==> (r.valid <==> ParseInt(input).Some? && MinAge <= ParseInt(input).value <= MaxAge)
    ensures inputType == "name" && r.valid ==> input != []
    ensures inputType == "country" && r.valid ==> |input| >= 2
  {
    if inputType == "email" then Verdict(MatchesWhole(input, EmailBody), EmailMessage)
    else if inputType == "phone" then Verdict(MatchesWhole(input, PhoneBody), PhoneMessage)
    else if inputType == "age" then
      match ParseInt(input)
      case None => Verdict(false, AgeNumberMessage)
      case Some(age) => Verdict(MinAge <= age <= MaxAge, AgeRangeMessage)
    else if inputType == "name" then Verdict(|Strip(input, StrSpace)| > 0, NameMessage)
    else if inputType == "country" then Verdict(|Strip(input, StrSpace)| >= 2, CountryMessage)
    else if inputType == "budget" then Verdict(Upper(input) in {"A", "B", "C"}, BudgetMessage)
    else if inputType == "timeline" then Verdict(Upper(input) in {"A", "B", "C", "D"}, TimelineMessage)
    else Verdict(true, "")
  }

  /**
   * The email pattern read as a split of `s`: a non-empty local part of
   * `[\w\.-]` up to an `@` at `at`, a non-empty run of `[\w\.-]` up to a dot
   * at `dot`, and a non-empty run of word characters to the end.
   */
  predicate EmailSplit(s: string, at: int, dot: int)
  {
    && 0 < at && at + 1 < dot && dot + 1 < |s|
    && s[at] == '@' && s[dot] == '.'
    && AllEmailChars(s[..at]) && AllEmailChars(s[at + 1..dot]) && AllWordChars(s[dot + 1..])
  }

  /** `IndexOf` finds the one `c` with no `c` before it. */
  lemma IndexOfUnique(s: string, c: char, i: nat)
    requires i < |s| && s[i] == c && forall k :: 0 <= k < i ==> s[k] != c
    ensures IndexOf(s, c) == Some(i)
  {
  }

  /** `LastIndexOf` finds the one `c` with no `c` after it. */
  lemma LastIndexOfUnique(s: string, c: char, i: nat)
    requires i < |s| && s[i] == c && forall k :: i < k < |s| ==> s[k] != c
    ensures LastIndexOf(s, c) == Some(i)
  {
  }

  /** What the email matcher accepts splits as the pattern says. */
  lemma EmailBodyHasSplit(s: string)
    requires EmailBody(s)
    ensures exists at, dot :: EmailSplit(s, at, dot)
  {
    var at := IndexOf(s, '@').value;
    var domain := s[at + 1..];
    var d := LastIndexOf(domain, '.').value;
    var dot := at + 1 + d;
    assert s[at + 1..dot] == domain[..d];
    assert s[dot + 1..] == domain[d + 1..];
    assert EmailSplit(s, at, dot);
  }

  /** Every split of the pattern is accepted by the email matcher. */
  lemma EmailSplitAccepted(s: string, at: int, dot: int)
    requires EmailSplit(s, at, dot)
    ensures EmailBody(s)
  {
    forall k | 0 <= k < at
      ensures s[k] != '@'
    {
      assert s[k] == s[..at][k];
    }
    IndexOfUnique(s, '@', at);
    var domain := s[at + 1..];
    var d := dot - at - 1;
    DomainOfSplit(s, at, dot, domain);
    LastIndexOfUnique(domain, '.', d);
    assert domain[d + 1..] == s[dot + 1..];
  }

  /** The domain of a split is all `[\w\.-]`, with no dot after the split's dot. */
  lemma DomainOfSplit(s: string, at: int, dot: int, domain: string)
    requires EmailSplit(s, at, dot) && domain == s[at + 1..]
    ensures AllEmailChars(domain)
    ensures forall k :: dot - at - 1 < k < |domain| ==> domain[k] != '.'
  {
    var d := dot - at - 1;
    forall k | 0 <= k < |domain|
      ensures IsEmailChar(domain[k]) && (d < k ==> domain[k] != '.')
    {
      if k < d {
        assert domain[k] == s[at + 1..dot][k];
      } else if d < k {
        assert domain[k] == s[dot + 1..][k - d - 1];
      }
    }
  }

  /** The email matcher accepts exactly the strings the pattern can be split over. */
  lemma EmailBodySplits(s: string)
    ensures EmailBody(s) <==> exists at, dot :: EmailSplit(s, at, dot)
  {
    if EmailBody(s) {
      EmailBodyHasSplit(s);
    }
    if exists at, dot :: EmailSplit(s, at, dot) {
      var at, dot :| EmailSplit(s, at, dot);
      EmailSplitAccepted(s, at, dot);
    }
  }

  /** `s` is `prefix` followed by nine to fifteen digits. */
  predicate PhoneSplit(s: string, prefix: string)
  {
    |prefix| <= |s| && s[..|prefix|] == prefix && AllDigits(s[|prefix|..]) && 9 <= |s| - |prefix| <= 15
  }

  /** The phone matcher accepts exactly nine to fifteen digits after an optional `+` and an optional `1`. */
  lemma PhoneBodyPrefixes(s: string)
    ensures PhoneBody(s) <==> PhoneSplit(s, "") || PhoneSplit(s, "+") || PhoneSplit(s, "1") || PhoneSplit(s, "+1")
  {
    var number := if s != [] && s[0] == '+' then s[1..] else s;
    if s != [] && s[0] == '+' {
      assert s[..1] == "+";
      assert !PhoneSplit(s, "") && !PhoneSplit(s, "1");
      if |s| >= 2 {
        assert s[2..] == number[1..];
        assert s[..2] == "+1" <==> number[0] == '1';
      }
    } else {
      assert !PhoneSplit(s, "+") && !PhoneSplit(s, "+1");
      if s != [] {
        assert s[1..] == number[1..];
        assert s[..1] == "1" <==> number[0] == '1';
      }
    }
  }

  /**
   * The email and phone checks read a final line feed as the end of the
   * input: `s` followed by one "\n" gets the verdict of `s`.
   */
  lemma TrailingNewlineIgnored(s: string, inputType: string)
    requires inputType == "email" || inputType == "phone"
    requires s == [] || s[|s| - 1] != '\n'
    ensures ValidateInput(s + "\n", inputType) == ValidateInput(s, inputType)
  {
    var t := s + "\n";
    assert t[..|t| - 1] == s;
    assert !IsWordChar(t[|t| - 1]) && !IsEmailChar(t[|t| - 1]) && !IsDigit(t[|t| - 1]);
    if inputType == "phone" {
      var number := if t[0] == '+' then t[1..] else t;
      assert number[|number| - 1] == '\n';
    }
  }

  function DigitChar(d: nat): char
    requires d < 10
  {
    ('0' as int + d) as char
  }

  /** `str(n)` for a natural number: its decimal digits, without leading zeros. */
  function Decimal(n: nat): (ds: string)
    ensures ds != [] && AllDigits(ds)
    ensures ds[0] == '0' ==> n == 0
  {
    if n < 10 then [DigitChar(n)] else Decimal(n / 10) + [DigitChar(n % 10)]
  }

  /** `str(n)` for an integer. */
  function Render(n: int): string
  {
    if n < 0 then "-" + Decimal(-n) else Decimal(n)
  }

  /** Reading back the digits of `str(n)` gives `n`. */
  lemma {:induction false} DecimalValue(n: nat)
    ensures DigitsValue(Decimal(n)) == n
  {
    if n >= 10 {
      var ds := Decimal(n);
      DecimalValue(n / 10);
      assert ds[..|ds| - 1] == Decimal(n / 10);
    }
  }

  /** The number of decimal digits of `n`, its sign left out. */
  function DigitCount(n: int): nat
  {
    |Decimal(if n < 0 then -n else n)|
  }

  /** `int` reads the decimal text of `n` back as `n`, unless it has more than `MaxStrDigits` digits. */
  lemma ParseRendered(n: int)
    ensures ParseInt(Render(n)) == if DigitCount(n) <= MaxStrDigits then Some(n) else None
  {
    RenderedUnspaced(n);
    SignedRendered(n);
  }

  /** The sign and digits of `str(n)` read back as `n`, within the digit limit. */
  lemma SignedRendered(n: int)
    ensures ParseSigned(Render(n)) == if DigitCount(n) <= MaxStrDigits then Some(n) else None
  {
    var magnitude := if n < 0 then -n else n;
    DecimalValue(magnitude);
    if n < 0 {
      assert Render(n)[1..] == Decimal(magnitude);
    }
  }

  /** `str(n)` has no surrounding whitespace to strip. */
  lemma RenderedUnspaced(n: int)
    ensures Strip(Render(n), IntSpace) == Render(n)
  {
    var text := Render(n);
    var ds := Decimal(if n < 0 then -n else n);
    assert text[|text| - 1] == ds[|ds| - 1];
    assert IsDigit(ds[|ds| - 1]) && IsDigit(ds[0]);
    assert !IsSpace(text[0], IntSpace) && !IsSpace(text[|text| - 1], IntSpace);
  }

  /**
   * The age check of a number: valid exactly from 18 to 120, with the range
   * message either way; a number of more than `MaxStrDigits` digits is not
   * read, and gets the number message.
   */
  lemma AgeOfNumber(n: int)
    ensures ValidateInput(Render(n), "age")
            == if DigitCount(n) <= MaxStrDigits then Verdict(MinAge <= n <= MaxAge, AgeRangeMessage)
               else Verdict(false, AgeNumberMessage)
  {
    ParseRendered(n);
  }

  /** Zeros in front of a run of digits do not change its value. */
  lemma {:induction false} LeadingZeros(zeros: string, ds: string)
    requires forall i :: 0 <= i < |zeros| ==> zeros[i] == '0'
    requires AllDigits(ds)
    ensures AllDigits(zeros + ds) && DigitsValue(zeros + ds) == DigitsValue(ds)
  {
    var t := zeros + ds;
    assert forall i :: 0 <= i < |t| ==> t[i] == (if i < |zeros| then zeros[i] else ds[i - |zeros|]);
    if ds == [] {
      assert t == zeros;
      if zeros != [] {
        assert t[..|t| - 1] == zeros[..|zeros| - 1] + [];
        LeadingZeros(zeros[..|zeros| - 1], []);
      }
    } else {
      assert t[..|t| - 1] == zeros + ds[..|ds| - 1];
      LeadingZeros(zeros, ds[..|ds| - 1]);
    }
  }

  /** A text with non-space ends, between two runs of whitespace, strips to itself. */
  lemma StripAround(pre: string, t: string, post: string, sp: SpaceSet)
    requires AllSpace(pre, sp) && AllSpace(post, sp)
    requires t != [] && !IsSpace(t[0], sp) && !IsSpace(t[|t| - 1], sp)
    ensures Strip(pre + t + post, sp) == t
  {
    var s := pre + t + post;
    assert s[..|pre|] == pre;
    assert s[|pre| + |t|..] == post;
    assert s[|pre|..|pre| + |t|] == t;
    var r := Strip(s, sp);
    var start :| TrimmedAt(s, r, start, sp);
    TrimmedUnique(s, r, start, |pre|, |t|, sp);
  }

  /** The trimmed slice is any slice with non-space ends and only space around it. */
  lemma TrimmedUnique(s: string, r: string, start: int, a: int, len: int, sp: SpaceSet)
    requires TrimmedAt(s, r, start, sp)
    requires r != [] ==> !IsSpace(r[0], sp) && !IsSpace(r[|r| - 1], sp)
    requires 0 <= a && 0 < len && a + len <= |s|
    requires AllSpace(s[..a], sp) && AllSpace(s[a + len..], sp)
    requires !IsSpace(s[a], sp) && !IsSpace(s[a + len - 1], sp)
    ensures r == s[a..a + len]
  {
    TrimmedKeepsVisible(s, r, start, a, sp);
    TrimmedKeepsVisible(s, r, start, a + len - 1, sp);
    assert r[0] == s[start] && r[|r| - 1] == s[start + |r| - 1];
  }

  /**
   * An optional `+`, zeros and the digits of `n` have non-space ends, and
   * read as `n` when there are at most `MaxStrDigits` digits in all.
   */
  lemma PaddedNumeral(sign: string, zeros: string, n: nat)
    requires sign == "" || sign == "+"
    requires forall i :: 0 <= i < |zeros| ==> zeros[i] == '0'
    ensures var t := sign + zeros + Decimal(n);
            && t != [] && !IsSpace(t[0], IntSpace) && !IsSpace(t[|t| - 1], IntSpace)
            && ParseSigned(t) == if |zeros| + |Decimal(n)| <= MaxStrDigits then Some(n) else None
  {
    LeadingZeros(zeros, Decimal(n));
    DecimalValue(n);
    SignedDigits(sign, zeros + Decimal(n), n);
    Regrouped3(sign, zeros, Decimal(n));
  }

  lemma Regrouped3<T>(a: seq<T>, b: seq<T>, c: seq<T>)
    ensures a + b + c == a + (b + c)
  {
  }

  /**
   * An optional `+` before a run of digits worth `n` has non-space ends,
   * and reads as `n` when the run has at most `MaxStrDigits` digits.
   */
  lemma SignedDigits(sign: string, ds: string, n: nat)
    requires sign == "" || sign == "+"
    requires ds != [] && AllDigits(ds) && DigitsValue(ds) == n
    ensures var t := sign + ds;
            && t != [] && !IsSpace(t[0], IntSpace) && !IsSpace(t[|t| - 1], IntSpace)
            && ParseSigned(t) == if |ds| <= MaxStrDigits then Some(n) else None
  {
    var t := sign + ds;
    assert t[|t| - 1] == ds[|ds| - 1];
    assert IsDigit(ds[0]);
    if sign == "+" {
      assert t[1..] == ds;
    } else {
      assert t == ds;
    }
  }

  /**
   * The age check reads the number as `int` does: whitespace around it,
   * a `+` sign and leading zeros are allowed, and the verdict is that of
   * the number itself, unless the zeros and digits together exceed
   * `MaxStrDigits`, when the text is not a number.
   */
  lemma AgeAmongSpaces(pre: string, sign: string, zeros: string, n: nat, post: string)
    requires AllSpace(pre, IntSpace) && AllSpace(post, IntSpace)
    requires sign == "" || sign == "+"
    requires forall i :: 0 <= i < |zeros| ==> zeros[i] == '0'
    ensures ValidateInput(pre + sign + zeros + Decimal(n) + post, "age")
            == if |zeros| + |Decimal(n)| <= MaxStrDigits then Verdict(MinAge <= n <= MaxAge, AgeRangeMessage)
               else Verdict(false, AgeNumberMessage)
  {
    var t := sign + zeros + Decimal(n);
    PaddedNumeral(sign, zeros, n);
    Regrouped(pre, sign, zeros, Decimal(n), post);
    StripAround(pre, t, post, IntSpace);
    var s := pre + t + post;
    assert ParseInt(s) == ParseSigned(t);
  }

  /** A run of more digits than `int` reads is not a number, whatever its value. */
  lemma AgeTooLong(ds: string)
    requires AllDigits(ds) && |ds| > MaxStrDigits
    ensures ValidateInput(ds, "age") == Verdict(false, AgeNumberMessage)
  {
    assert IsDigit(ds[0]) && IsDigit(ds[|ds| - 1]);
    assert !IsSpace(ds[0], IntSpace) && !IsSpace(ds[|ds| - 1], IntSpace);
    var t := Strip(ds, IntSpace);
    assert t == ds;
    assert ParseSigned(t).None?;
    assert ParseInt(ds) == ParseSigned(t);
  }

  lemma Regrouped<T>(a: seq<T>, b: seq<T>, c: seq<T>, d: seq<T>, e: seq<T>)
    ensures a + b + c + d + e == a + (b + c + d) + e
  {
  }

  /**
   * The separators 0x1C-0x1F are whitespace to `str.strip` but not to
   * `int`: a number behind one is not a number, whatever its value.
   */
  lemma AgeAfterSeparator(c: char, ds: string)
    requires '\U{1C}' <= c <= '\U{1F}'
    requires ds != [] && AllDigits(ds)
    ensures ValidateInput([c] + ds, "age") == Verdict(false, AgeNumberMessage)
  {
    SeparatorFirst([c] + ds);
  }

  /** `int` does not strip a leading separator 0x1C-0x1F, so a text opening with one is not a number. */
  lemma SeparatorFirst(s: string)
    requires |s| >= 2 && '\U{1C}' <= s[0] <= '\U{1F}' && IsDigit(s[|s| - 1])
    ensures ParseInt(s).None?
  {
    assert !IsSpace(s[0], IntSpace) && !IsSpace(s[|s| - 1], IntSpace);
    var t := Strip(s, IntSpace);
    assert t == s;
    StrayFirst(t);
    assert ParseInt(s) == ParseSigned(t);
  }

  /** A text opening with a character that is neither a sign nor a digit is not a literal. */
  lemma StrayFirst(t: string)
    requires t != [] && t[0] != '+' && t[0] != '-' && !IsDigit(t[0])
    ensures ParseSigned(t).None?
  {
    assert !AllDigits(t);
  }

  /** An age answer without a single digit is not a number. */
  lemma AgeWithoutDigits(s: string)
    requires forall i :: 0 <= i < |s| ==> !IsDigit(s[i])
    ensures ValidateInput(s, "age") == Verdict(false, AgeNumberMessage)
  {
    NoDigitsNoNumber(s);
  }

  /** `int` refuses a text without a single digit. */
  lemma NoDigitsNoNumber(s: string)
    requires forall i :: 0 <= i < |s| ==> !IsDigit(s[i])
    ensures ParseInt(s).None?
  {
    var t := Strip(s, IntSpace);
    var start :| TrimmedAt(s, t, start, IntSpace);
    TrimmedNoDigits(s, t, start, IntSpace);
    SignedNeedsDigit(t);
  }

  /** A sign alone, or anything else without a digit, is not a number. */
  lemma SignedNeedsDigit(t: string)
    requires forall i :: 0 <= i < |t| ==> !IsDigit(t[i])
    ensures ParseSigned(t).None?
  {
    if t != [] {
      var k := if t[0] == '-' || t[0] == '+' then 1 else 0;
      if k < |t| {
        assert t[k..][0] == t[k];
      }
    }
  }

  /** A slice of a text without digits has none. */
  lemma TrimmedNoDigits(s: string, t: string, start: int, sp: SpaceSet)
    requires TrimmedAt(s, t, start, sp)
    requires forall i :: 0 <= i < |s| ==> !IsDigit(s[i])
    ensures forall i :: 0 <= i < |t| ==> !IsDigit(t[i])
  {
    forall i | 0 <= i < |t|
      ensures !IsDigit(t[i])
    {
      assert t[i] == s[start + i];
    }
  }

  /** `s[i]` is a character `strip` keeps. */
  predicate Visible(s: string, i: int)
  {
    0 <= i < |s| && !IsSpace(s[i], StrSpace)
  }

  /** A name is valid exactly when it has a character that is not whitespace. */
  lemma NameVisible(s: string)
    ensures ValidateInput(s, "name").valid <==> exists i :: Visible(s, i)
  {
    var t := Strip(s, StrSpace);
    var start :| TrimmedAt(s, t, start, StrSpace);
    TrimmedOne(s, t, start);
    assert ValidateInput(s, "name").valid == (|t| > 0);
  }

  /** A country is valid exactly when it has two characters that are not whitespace. */
  lemma CountryVisible(s: string)
    ensures ValidateInput(s, "country").valid <==> exists i, j :: i < j && Visible(s, i) && Visible(s, j)
  {
    var t := Strip(s, StrSpace);
    var start :| TrimmedAt(s, t, start, StrSpace);
    TrimmedTwo(s, t, start);
    assert ValidateInput(s, "country").valid == (|t| >= 2);
  }

  /** A trimmed slice is non-empty exactly when `s` has a visible character. */
  lemma TrimmedOne(s: string, t: string, start: int)
    requires TrimmedAt(s, t, start, StrSpace) && (t != [] ==> !IsSpace(t[0], StrSpace))
    ensures |t| > 0 <==> exists i :: Visible(s, i)
  {
    if t != [] {
      assert t[0] == s[start] && Visible(s, start);
    }
    if exists i :: Visible(s, i) {
      var i :| Visible(s, i);
      TrimmedKeepsVisible(s, t, start, i, StrSpace);
    }
  }

  /** A trimmed slice has two characters exactly when `s` has two visible ones. */
  lemma TrimmedTwo(s: string, t: string, start: int)
    requires TrimmedAt(s, t, start, StrSpace) && (t != [] ==> !IsSpace(t[0], StrSpace) && !IsSpace(t[|t| - 1], StrSpace))
    ensures |t| >= 2 <==> exists i, j :: i < j && Visible(s, i) && Visible(s, j)
  {
    if |t| >= 2 {
      assert t[0] == s[start];
      assert t[|t| - 1] == s[start + |t| - 1];
      assert Visible(s, start) && Visible(s, start + |t| - 1);
    }
    if exists i, j :: i < j && Visible(s, i) && Visible(s, j) {
      var i, j :| i < j && Visible(s, i) && Visible(s, j);
      TrimmedKeepsVisible(s, t, start, i, StrSpace);
      TrimmedKeepsVisible(s, t, start, j, StrSpace);
    }
  }

  /** The budget answer is one letter A, B or C, in either case. */
  lemma BudgetChoices(s: string)
    ensures ValidateInput(s, "budget").valid <==> s in {"A", "B", "C", "a", "b", "c"}
  {
    if |s| == 1 {
      assert Upper(s) == [UpperChar(s[0])];
      assert s == [s[0]];
    }
  }

  /** The timeline answer is one letter A, B, C or D, in either case. */
  lemma TimelineChoices(s: string)
    ensures ValidateInput(s, "timeline").valid <==> s in {"A", "B", "C", "D", "a", "b", "c", "d"}
  {
    if |s| == 1 {
      assert Upper(s) == [UpperChar(s[0])];
      assert s == [s[0]];
    }
  }
}
