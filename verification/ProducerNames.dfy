/** Producer names: "defproducer" and a letter for the first 26 numbers, "defpr" and seven base-26
    digits above. */
module ProducerNames {
  import opened Bits

  const SLOT_CHARS := "abcdefghijklmnopqrstuvwxyz"
  const VALID_CHAR_RANGE := 26
  const TOTAL_CHARS := 12

  datatype NameResult = Name(name: string) | TooLarge

  function Letter(d: nat): char
    requires d < VALID_CHAR_RANGE
  {
    SLOT_CHARS[d]
  }

  /** The last `len` base-26 digits of `n`. */
  function Digits(n: nat, len: nat): (s: string)
    ensures |s| == len
    decreases len
  {
    if len == 0 then "" else Digits(n / 26, len - 1) + [Letter(n % 26)]
  }

  /** `n` divided by 26, `k` times over. */
  function Div26(n: nat, k: nat): nat {
    if k == 0 then n else Div26(n, k - 1) / 26
  }

  function ProducerName(n: uint32): (name: string)
    ensures |name| == TOTAL_CHARS
  {
    if n < 26 then "defproducer" + [Letter(n)]
    else if n == 26 then "defproduceba"
    else "defpr" + Digits(n, 7)
  }

  /** Both ends of a digit string: the low `k` digits are those of `n`, the high ones those of what is
      left of it. */
  lemma {:induction false} DigitsSplit(n: nat, high: nat, k: nat)
    ensures Digits(n, high + k) == Digits(Div26(n, k), high) + Digits(n, k)
    decreases k
  {
    if k > 0 {
      Div26Step(n, k - 1);
      DigitsSplit(n / 26, high, k - 1);
    }
  }

  lemma {:induction false} Div26Step(n: nat, k: nat)
    ensures Div26(n / 26, k) == Div26(n, k + 1)
  {
    if k > 0 {
      Div26Step(n, k - 1);
    }
  }

  lemma {:induction false} DigitsOfZero(len: nat)
    ensures Digits(0, len) == seq(len, i => 'a')
  {
    if len > 0 {
      DigitsOfZero(len - 1);
    }
  }

  function Pow26(k: nat): (r: nat)
    ensures r >= 1
  {
    if k == 0 then 1 else 26 * Pow26(k - 1)
  }

  lemma {:induction false} Div26Below(n: nat, k: nat, m: nat)
    requires n < m * Pow26(k)
    ensures Div26(n, k) < m
  {
    if k > 0 {
      assert m * Pow26(k) == (26 * m) * Pow26(k - 1);
      Div26Below(n, k - 1, 26 * m);
    }
  }

  /** How many digits the loop of `producer_name` writes. */
  function DigitCount(n: nat): nat {
    if n < 26 then 1 else 1 + DigitCount(n / 26)
  }

  /** A 32-bit number has at most seven base-26 digits: `26^7 > 2^32`. */
  lemma {:induction false} SevenDigits(n: uint32)
    ensures Div26(n, 7) == 0 && DigitCount(n) <= 7
  {
    assert Pow26(7) == 8_031_810_176;
    Div26Below(n, 7, 1);
    DigitCountBound(n, 7);
  }

  lemma {:induction false} DigitCountBound(n: nat, len: nat)
    requires len >= 1 && n < Pow26(len)
    ensures DigitCount(n) <= len
  {
    if n >= 26 {
      assert len > 1;
      DigitCountBound(n / 26, len - 1);
    }
  }

  /** Leading digits beyond the count are all 'a'. */
  lemma {:induction false} LeadingDigits(n: nat, high: nat)
    ensures Digits(n, high + DigitCount(n)) == seq(high, i => 'a') + Digits(n, DigitCount(n))
  {
    NothingLeft(n);
    DigitsSplit(n, high, DigitCount(n));
    DigitsOfZero(high);
  }

  lemma {:induction false} NothingLeft(n: nat)
    ensures Div26(n, DigitCount(n)) == 0
  {
    if n >= 26 {
      NothingLeft(n / 26);
      Div26Step(n, DigitCount(n / 26));
    } else {
      assert Div26(n, 1) == 0;
    }
  }

  /** What the buffer holds before the digits are written. */
  function Template(n: uint32): (s: string)
    ensures |s| == TOTAL_CHARS
  {
    if n > VALID_CHAR_RANGE then "defpraaaaaaa" else "defproducera"
  }

  lemma {:induction false} LongTemplate(n: uint32, high: nat)
    requires n > 26 && high + DigitCount(n) == 7
    ensures Template(n)[..5 + high] + Digits(n, DigitCount(n)) == ProducerName(n)
  {
    LeadingDigits(n, high);
    ConcatAssociates("defpr", seq(high, i => 'a'), Digits(n, DigitCount(n)));
    hide Digits, DigitCount;
  }

  lemma {:induction false} ConcatAssociates(a: string, b: string, c: string)
    ensures (a + b) + c == a + (b + c)
  {
  }

  lemma {:induction false} ShortTemplate(n: uint32)
    requires n < 26
    ensures DigitCount(n) == 1 && Template(n)[..11] + Digits(n, 1) == ProducerName(n)
  {
    assert Digits(n, 1) == [Letter(n)];
    assert "defproducera"[..11] == "defproducer";
  }

  lemma {:induction false} TemplateOf26()
    ensures DigitCount(26) == 2 && Template(26)[..10] + Digits(26, 2) == ProducerName(26)
  {
    assert Digits(1, 1) == "b";
    assert Digits(26, 2) == "ba";
    assert "defproducera"[..10] == "defproduce";
  }

  /** The template's leading letters are already those of the name. */
  lemma {:induction false} TemplateIsName(n: uint32)
    requires DigitCount(n) <= 7
    ensures Template(n)[..12 - DigitCount(n)] + Digits(n, DigitCount(n)) == ProducerName(n)
  {
    hide Template, Digits, DigitCount, ProducerName;
    if n > 26 {
      LongTemplate(n, 7 - DigitCount(n));
    } else if n == 26 {
      TemplateOf26();
    } else {
      ShortTemplate(n);
    }
  }

  /** The digit loop of `producer_name`, from the last letter of the buffer leftwards. */
  method WriteDigits(prodName: array<char>, number: uint32) returns (left: nat)
    requires prodName.Length == 13 && DigitCount(number) <= 7
    modifies prodName
    ensures left == 0 && DigitCount(number) <= 12
    ensures prodName[..12] == old(prodName[..12])[..12 - DigitCount(number)] + Digits(number, DigitCount(number))
  {
    hide Digits, Letter, DigitCount, Div26;
    left := number;
    var loc := TOTAL_CHARS - 1;
    ghost var k := 0;
    ghost var initial := prodName[..12];
    NoDigits(number);
    while loc >= 0
      invariant loc == 11 - k && left == Div26(number, k) && 0 <= k && k + DigitCount(left) == DigitCount(number)
      invariant prodName[..12] == initial[..12 - k] + Digits(number, k)
      decreases loc
    {
      var slotValue := left % VALID_CHAR_RANGE;
      left := left / VALID_CHAR_RANGE;
      OneMoreDigit(initial, number, k);
      DigitStep(number, k);
      prodName[loc] := SLOT_CHARS[slotValue];
      k := k + 1;
      if left == 0 {
        break;
      }
      loc := loc - 1;
    }
  }

  lemma {:induction false} NoDigits(n: nat)
    ensures Div26(n, 0) == n && Digits(n, 0) == ""
  {
  }

  lemma {:induction false} DigitStep(n: nat, k: nat)
    ensures var left := Div26(n, k);
      && Div26(n, k + 1) == left / 26
      && DigitCount(left) == (if left / 26 == 0 then 1 else 1 + DigitCount(left / 26))
      && Letter(left % 26) == SLOT_CHARS[left % 26]
  {
    Div26Step(n, k);
  }

  lemma {:induction false} OneMoreDigit(initial: string, n: nat, k: nat)
    requires |initial| == 12 && k < 12
    ensures (initial[..12 - k] + Digits(n, k))[11 - k := Letter(Div26(n, k) % 26)]
         == initial[..12 - (k + 1)] + Digits(n, k + 1)
  {
    NextDigit(n, k);
  }

  /** `producer_names::producer_name`.  The number is always used up, so the final check never fires. */
  method MakeProducerName(number: uint32) returns (r: NameResult)
    ensures r == Name(ProducerName(number))
    ensures |r.name| == 12
    ensures number < 26 ==> r.name[..11] == "defproducer" && r.name[11] == 'a' + number as char
    ensures number == 26 ==> r.name == "defproduceba"
    ensures number > 26 ==> r.name[..5] == "defpr" && LowerCase(r.name[5..]) && Value(r.name[5..]) == number
  {
    hide Value, LowerCase, ProducerName, Digits, DigitCount;
    ProducerNameReads(number);
    var prodName := new char[13](i requires 0 <= i < 13 => if i < 12 then "defproducera"[i] else '\0');
    if number > VALID_CHAR_RANGE {
      for loc := 5 to TOTAL_CHARS
        invariant prodName[..12] == "defproducera"[..5] + seq(loc - 5, i => 'a') + "defproducera"[loc..]
      {
        prodName[loc] := SLOT_CHARS[0];
      }
    }
    prodName[TOTAL_CHARS] := '\0';
    assert prodName[..12] == Template(number);
    SevenDigits(number);
    TemplateIsName(number);
    var left := WriteDigits(prodName, number);
    if prodName[..12] == "defproducera" && left != 0 {
      r := TooLarge;
    } else {
      r := Name(prodName[..12]);
    }
  }

  /** The next digit goes in front of those already written. */
  lemma {:induction false} NextDigit(n: nat, k: nat)
    ensures Digits(n, k + 1) == [Letter(Div26(n, k) % 26)] + Digits(n, k)
  {
    DigitsSplit(n, 1, k);
    assert Digits(Div26(n, k), 1) == [Letter(Div26(n, k) % 26)];
  }

  // ----- reading a name back

  function Digit(c: char): nat
  {
    if 'a' <= c <= 'z' then (c - 'a') as nat else 0
  }

  function Value(s: string): nat {
    if s == "" then 0 else 26 * Value(s[..|s| - 1]) + Digit(s[|s| - 1])
  }

  /** The number a producer name stands for.  The sixth letter tells the two forms apart. */
  function NumberOf(name: string): nat
    requires |name| == TOTAL_CHARS
  {
    if name[5] == 'o' then (if name[10] == 'r' then Digit(name[11]) else Value(name[10..]))
    else Value(name[5..])
  }

  lemma {:induction false} DigitOfLetter(d: nat)
    requires d < 26
    ensures Digit(Letter(d)) == d
  {
  }

  lemma {:induction false} ValueOfDigits(n: nat, len: nat)
    requires Div26(n, len) == 0
    ensures Value(Digits(n, len)) == n
    decreases len
  {
    if len > 0 {
      Div26Step(n, len - 1);
      ValueOfDigits(n / 26, len - 1);
      DigitOfLetter(n % 26);
      var s := Digits(n, len);
      assert s[..|s| - 1] == Digits(n / 26, len - 1);
    }
  }

  predicate LowerCase(s: string) {
    forall k :: 0 <= k < |s| ==> 'a' <= s[k] <= 'z'
  }

  lemma {:induction false} DigitsAreLetters(n: nat, len: nat)
    ensures LowerCase(Digits(n, len))
    decreases len
  {
    if len > 0 {
      DigitsAreLetters(n / 26, len - 1);
    }
  }

  /** What a producer name is, letter by letter: the long ones spell their number in base 26. */
  lemma {:induction false} ProducerNameReads(n: uint32)
    ensures var name := ProducerName(n);
      && |name| == 12
      && (n < 26 ==> name[..11] == "defproducer" && name[11] == 'a' + n as char)
      && (n == 26 ==> name == "defproduceba")
      && (n > 26 ==> name[..5] == "defpr" && LowerCase(name[5..]) && Value(name[5..]) == n)
  {
    if n > 26 {
      SevenDigits(n);
      ValueOfDigits(n, 7);
      DigitsAreLetters(n, 7);
      assert ProducerName(n)[5..] == Digits(n, 7);
    }
  }

  /** A name tells its number: no two 32-bit numbers share a name. */
  lemma {:induction false} NameRoundTrip(n: uint32)
    ensures NumberOf(ProducerName(n)) == n
  {
    var name := ProducerName(n);
    if n < 26 {
      DigitOfLetter(n);
    } else if n == 26 {
      assert name[10..] == "ba";
      assert "ba"[..1] == "b";
      assert Value("b") == 1;
    } else {
      SevenDigits(n);
      ValueOfDigits(n, 7);
      assert name[5..] == Digits(n, 7);
      TopDigit(n);
    }
  }

  /** The seventh digit of a 32-bit number is at most 13, so no long name starts like the short ones. */
  lemma {:induction false} TopDigit(n: uint32)
    ensures Digits(n, 7)[0] <= 'n'
  {
    NextDigit(n, 6);
    assert Pow26(6) == 308_915_776;
    Div26Below(n, 6, 14);
    LetterAtMost(Div26(n, 6));
  }

  lemma {:induction false} LetterAtMost(d: nat)
    requires d < 14
    ensures Letter(d % 26) <= 'n'
  {
  }

  lemma {:induction false} NamesAreDistinct(a: uint32, b: uint32)
    requires a != b
    ensures ProducerName(a) != ProducerName(b)
  {
    hide ProducerName, NumberOf;
    NameRoundTrip(a);
    NameRoundTrip(b);
  }
}
