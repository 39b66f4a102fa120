/** Six-character names as 32-bit numbers (include/rtai_nam2num.h:24-71): base 39 without a
    zero digit. 1 to 10 stand for the decimal digits, 11 to 36 for the letters of either case,
    37 for the underscore, 38 for every other character.
  */
module Names {
  import opened Words

  const NO_NAME: u32 := 0xFFFFFFFF

  /** 39^6 */
  const CODES := 3518743761

  /** Lines 32-40. */
  function Digit(c: char): (d: int) {
    if 'a' <= c <= 'z' then c as int - 'a' as int + 11
    else if 'A' <= c <= 'Z' then c as int - 'A' as int + 11
    else if '0' <= c <= '9' then c as int - '0' as int + 1
    else if c == '_' then 37 else 38
  }

  /** Lines 61-65; a digit zero comes out as the character before '0'. */
  function Glyph(d: int): char
    requires 0 <= d < 39
  {
    if d < 37 then (if d > 10 then (d + 'A' as int - 11) as char else (d + '0' as int - 1) as char)
    else if d == 37 then '_' else '$'
  }

  predicate IsDigits(ds: seq<int>) {
    forall i :: 0 <= i < |ds| ==> 0 <= ds[i] < 39
  }

  predicate NoZero(ds: seq<int>) {
    forall i :: 0 <= i < |ds| ==> ds[i] != 0
  }

  /** The number with these base-39 digits, most significant first. */
  function Value(ds: seq<int>): int {
    if ds == [] then 0 else 39 * Value(ds[..|ds| - 1]) + ds[|ds| - 1]
  }

  /** The low n base-39 digits of a number, without leading zeros. */
  function Digits(num: nat, n: nat): seq<int> {
    if num == 0 || n == 0 then [] else Digits(num / 39, n - 1) + [num % 39]
  }

  function DigitsOf(s: string): (ds: seq<int>)
    ensures |ds| == |s|
  {
    seq(|s|, i requires 0 <= i < |s| => Digit(s[i]))
  }

  function GlyphsOf(ds: seq<int>): (s: string)
    requires IsDigits(ds)
    ensures |s| == |ds|
  {
    seq(|ds|, i requires 0 <= i < |ds| => Glyph(ds[i]))
  }

  /** Upper case, and $ for whatever is no letter, decimal digit or underscore. */
  function Normal(c: char): char {
    if 'a' <= c <= 'z' then (c as int - 'a' as int + 'A' as int) as char
    else if 'A' <= c <= 'Z' || '0' <= c <= '9' || c == '_' then c
    else '$'
  }

  function NormalForm(s: string): (n: string)
    ensures |n| == |s|
  {
    seq(|s|, i requires 0 <= i < |s| => Normal(s[i]))
  }

  /** The first n characters of a C string. */
  function Key(name: seq<char>, n: nat): (k: string)
    ensures |k| <= n && |k| <= |name| && k == name[..|k|] && '\0' !in k
    ensures |k| < n && |k| < |name| ==> name[|k|] == '\0'
  {
    if n == 0 || name == [] || name[0] == '\0' then [] else [name[0]] + Key(name[1..], n - 1)
  }

  /** A buffer that a C string can be read from: terminated, or long enough. */
  predicate Readable(name: seq<char>) {
    '\0' in name || |name| >= 6
  }

  /** nam2num as a function of the key. */
  function NumberOf(key: string): int {
    if key == [] then NO_NAME else Value(DigitsOf(key))
  }

  /** num2nam as a function. */
  function NameOf(num: u32): string {
    if num == NO_NAME then []
    else
      DigitsAreDigits(num, 6);
      GlyphsOf(Digits(num, 6))
  }

  // ----- base 39 -----

  lemma {:induction false} DigitsAreDigits(num: nat, n: nat)
    ensures IsDigits(Digits(num, n)) && |Digits(num, n)| <= n
  {
    if num != 0 && n != 0 {
      DigitsAreDigits(num / 39, n - 1);
    }
  }

  lemma {:induction false} ValueIsPositive(ds: seq<int>)
    requires IsDigits(ds) && NoZero(ds)
    ensures Value(ds) >= |ds|
  {
    if ds != [] {
      ValueIsPositive(ds[..|ds| - 1]);
    }
  }

  /** Without zeros the digits can be read back, and so the number tells them. */
  lemma {:induction false} DigitsOfValue(ds: seq<int>, n: nat)
    requires IsDigits(ds) && NoZero(ds) && |ds| <= n
    ensures Value(ds) >= 0 && Digits(Value(ds), n) == ds
  {
    ValueIsPositive(ds);
    if ds != [] {
      var init, last := ds[..|ds| - 1], ds[|ds| - 1];
      ValueIsPositive(init);
      DigitsOfValue(init, n - 1);
      assert Value(ds) / 39 == Value(init) && Value(ds) % 39 == last;
    }
  }

  /** 39^n */
  function Power(n: nat): nat {
    if n == 0 then 1 else 39 * Power(n - 1)
  }

  lemma {:induction false} ValueBound(ds: seq<int>)
    requires IsDigits(ds)
    ensures 0 <= Value(ds) < Power(|ds|)
  {
    if ds != [] {
      ValueBound(ds[..|ds| - 1]);
    }
  }

  lemma {:induction false} PowerGrows(m: nat, n: nat)
    requires m <= n
    ensures Power(m) <= Power(n)
  {
    if m < n {
      PowerGrows(m, n - 1);
    }
  }

  lemma SixDigits()
    ensures Power(6) == CODES
  {
    assert Power(3) == 59319;
    assert Power(6) == 39 * (39 * (39 * Power(3)));
  }

  /** A number below 39^n is its n low digits. */
  lemma {:induction false} ValueOfDigits(num: nat, n: nat)
    requires num < Power(n)
    ensures Value(Digits(num, n)) == num
  {
    if num != 0 && n != 0 {
      ValueOfDigits(num / 39, n - 1);
      var ds := Digits(num / 39, n - 1);
      assert (ds + [num % 39])[..|ds|] == ds;
    }
  }

  /** Digits that only grow, and one that grows strictly, make a larger number. */
  lemma {:induction false} ValueGrows(ds: seq<int>, es: seq<int>)
    requires |ds| == |es| && forall i :: 0 <= i < |ds| ==> ds[i] <= es[i]
    ensures Value(ds) <= Value(es)
    ensures ds != es ==> Value(ds) < Value(es)
  {
    if ds != [] {
      var n := |ds| - 1;
      ValueGrows(ds[..n], es[..n]);
      assert ds == ds[..n] + [ds[n]] && es == es[..n] + [es[n]];
    }
  }

  // ----- the encoder -----

  method Nam2Num(name: seq<char>) returns (retval: u32)
    requires Readable(name)
    ensures retval == NumberOf(Key(name, 6))
  {
    retval := 0;
    var i := 0;
    ghost var key := Key(name, 6);
    while i < 6
      invariant 0 <= i <= |key| && retval == Value(DigitsOf(name[..i])) && retval < Power(i)
    {
      var c := name[i];
      if c == '\0' {
        break;
      }
      CodeGrows(name, i, retval);
      retval := retval * 39 + Digit(c);
      i := i + 1;
    }
    if i == 0 {
      retval := NO_NAME;
    }
  }

  lemma CodeGrows(name: seq<char>, i: nat, code: int)
    requires i < 6 && i < |name| && code == Value(DigitsOf(name[..i])) && 0 <= code < Power(i)
    ensures 39 * code + Digit(name[i]) == Value(DigitsOf(name[..i + 1]))
    ensures 0 <= 39 * code + Digit(name[i]) < Power(i + 1) <= CODES
  {
    var ds := DigitsOf(name[..i + 1]);
    assert ds[..i] == DigitsOf(name[..i]);
    PowerGrows(i + 1, 6);
    SixDigits();
  }

  // ----- the decoder -----

  /** name must have room for six characters and a terminator. */
  method Num2Nam(num: u32, name: array<char>)
    requires name.Length >= 7
    modifies name
    ensures Key(name[..], 6) == NameOf(num) && name[|NameOf(num)|] == '\0'
  {
    if num == NO_NAME {
      name[0] := '\0';
      return;
    }
    var rest, i := num, 5;
    ghost var ds, text := Digits(num, 6), NameOf(num);
    ghost var m: nat := |ds|;
    DigitsAreDigits(num, 6);
    while rest != 0 && i >= 0
      invariant rest >= 0 && Written(name[i + 1..6], rest, i, ds, text, m)
      decreases i
    {
      rest := PutDigit(name, rest, i, ds, text, m);
      i := i - 1;
      m := m - 1;
    }
    AllWritten(name[i + 1..6], rest, i, ds, text, m);
    NoNul(num);
    Shift(name, i, text);
  }

  /** Lines 58-65: the lowest digit of rest is written at place i. */
  method PutDigit(name: array<char>, rest: nat, i: nat, ghost ds: seq<int>, ghost text: string, ghost m: nat)
    returns (q: nat)
    requires name.Length >= 7 && i < 6 && Written(name[i + 1..6], rest, i, ds, text, m) && rest != 0
    requires IsDigits(ds) && text == GlyphsOf(ds)
    modifies name
    ensures m > 0 && Written(name[i..6], q, i - 1, ds, text, m - 1)
  {
    WrittenNext(name[i + 1..6], rest, i, ds, text, m);
    q := rest / 39;
    name[i] := Glyph(rest - q * 39);
    assert name[i..6] == [name[i]] + name[i + 1..6];
  }

  lemma AllWritten(tail: string, rest: nat, i: int, ds: seq<int>, text: string, m: nat)
    requires Written(tail, rest, i, ds, text, m) && (rest == 0 || i < 0)
    ensures m == 0 && tail == text
  {
    assert Digits(rest, i + 1) == [];
  }

  /** m digits are still to be written, those of rest; the others stand at the end. */
  predicate Written(tail: string, rest: nat, i: int, ds: seq<int>, text: string, m: nat) {
    && -1 <= i <= 5 && m <= |ds| == |text| && m == |ds| - (5 - i)
    && Digits(rest, i + 1) == ds[..m] && tail == text[m..]
  }

  lemma WrittenNext(tail: string, rest: nat, i: int, ds: seq<int>, text: string, m: nat)
    requires Written(tail, rest, i, ds, text, m) && rest != 0 && i >= 0
    requires IsDigits(ds) && text == GlyphsOf(ds)
    ensures m > 0 && Written([Glyph(rest - rest / 39 * 39)] + tail, rest / 39, i - 1, ds, text, m - 1)
  {
    LowDigit(rest, i + 1, ds, m);
    assert text[m - 1..] == [text[m - 1]] + text[m..];
  }

  lemma LowDigit(rest: nat, n: nat, ds: seq<int>, m: nat)
    requires rest != 0 && n > 0 && m <= |ds| && Digits(rest, n) == ds[..m]
    ensures m > 0 && rest - rest / 39 * 39 == ds[m - 1] && Digits(rest / 39, n - 1) == ds[..m - 1]
  {
    var high := Digits(rest / 39, n - 1);
    assert high + [rest % 39] == ds[..m];
    assert ds[..m][..m - 1] == ds[..m - 1];
  }

  /** Lines 67-69 move the text to the front of its own buffer. */
  method Shift(name: array<char>, i0: int, ghost text: string)
    requires name.Length >= 7 && -1 <= i0 <= 5 && name[i0 + 1..6] == text && '\0' !in text
    modifies name
    ensures Key(name[..], 6) == text && name[|text|] == '\0'
  {
    var i, k := i0, 0;
    while i < 5
      invariant 0 <= k <= |text| && i == i0 + k <= 5
      invariant name[..k] == text[..k] && name[i + 1..6] == text[k..]
    {
      i := i + 1;
      assert name[i] == text[k];
      name[k] := name[i];
      assert name[i + 1..6] == text[k + 1..];
      k := k + 1;
    }
    name[k] := '\0';
    KeyIs(name[..], 6, text);
  }

  lemma {:induction false} KeyIs(name: seq<char>, n: nat, text: string)
    requires |text| <= n && |text| < |name| && name[..|text|] == text && name[|text|] == '\0' && '\0' !in text
    ensures Key(name, n) == text
  {
    if text != [] {
      assert name[0] == text[0];
      KeyIs(name[1..], n - 1, text[1..]);
    }
  }

  lemma NoNul(num: u32)
    ensures '\0' !in NameOf(num)
  {
    if num != NO_NAME {
      DigitsAreDigits(num, 6);
    }
  }

  // ----- the two together -----

  /** A key as nam2num reads it. */
  predicate IsKey(key: string) {
    |key| <= 6 && '\0' !in key
  }

  /** Codes fit in 32 bits and the code of a name is never that of no name. */
  lemma CodesFit(key: string)
    requires IsKey(key)
    ensures NumberOf(key) == NO_NAME <==> key == []
    ensures key != [] ==> 0 < NumberOf(key) < CODES
  {
    var ds := DigitsOf(key);
    ValueIsPositive(ds);
    ValueBound(ds);
    PowerGrows(|ds|, 6);
    SixDigits();
  }

  lemma GlyphOfDigit(c: char)
    ensures Glyph(Digit(c)) == Normal(c) && Digit(Normal(c)) == Digit(c)
  {}

  lemma ValueOfOne(d: int)
    ensures Value([d]) == d
  {
    assert [d][..0] == [];
  }

  /** The code of each class of characters, and what it is decoded to. */
  lemma OneCharacter(c: char)
    requires c != '\0'
    ensures '0' <= c <= '9' ==> NumberOf([c]) == 1 + (c as int - '0' as int) && NameOf(NumberOf([c])) == [c]
    ensures 'A' <= c <= 'Z' ==> NumberOf([c]) == 11 + (c as int - 'A' as int) && NameOf(NumberOf([c])) == [c]
    ensures 'a' <= c <= 'z' ==>
              && NumberOf([c]) == 11 + (c as int - 'a' as int)
              && NameOf(NumberOf([c])) == [(c as int - 32) as char]
    ensures c == '_' ==> NumberOf([c]) == 37 && NameOf(37) == [c]
    ensures !('0' <= c <= '9' || 'A' <= c <= 'Z' || 'a' <= c <= 'z' || c == '_') ==>
              NumberOf([c]) == 38 && NameOf(38) == "$"
  {
    ValueOfOne(Digit(c));
    assert DigitsOf([c]) == [Digit(c)];
    assert Digits(Digit(c), 6) == [Digit(c)];
  }

  /** The characters are the digits of the number, the first one the most significant. */
  lemma MoreCharacters(key: string, c: char)
    requires key != []
    ensures NumberOf(key + [c]) == 39 * NumberOf(key) + NumberOf([c])
  {
    var ds := DigitsOf(key + [c]);
    assert ds[..|key|] == DigitsOf(key);
    ValueOfOne(Digit(c));
    assert DigitsOf([c]) == [Digit(c)];
  }

  lemma OneMore(key: string, code: int, c: char) returns (code': int)
    requires 'A' <= c <= 'Z' && (key != [] ==> code == NumberOf(key))
    ensures code' == NumberOf(key + [c])
    ensures code' == (if key == [] then 0 else 39 * code) + 11 + (c as int - 'A' as int)
  {
    code' := NumberOf(key + [c]);
    OneCharacter(c);
    if key == [] {
      assert key + [c] == [c];
    } else {
      MoreCharacters(key, c);
    }
  }

  /** A number the repository states for a name (bits/rtai_bits.c:31), and the name of that
      number. */
  lemma MagicName()
    ensures NumberOf("BITSMG") == 0x43431758 && NameOf(0x43431758) == "BITSMG"
  {
    assert "" + ['B'] == "B" && "B" + ['I'] == "BI" && "BI" + ['T'] == "BIT" && "BIT" + ['S'] == "BITS";
    assert "BITS" + ['M'] == "BITSM" && "BITSM" + ['G'] == "BITSMG";
    var code := OneMore("", -1, 'B');
    code := OneMore("B", code, 'I');
    code := OneMore("BI", code, 'T');
    code := OneMore("BIT", code, 'S');
    code := OneMore("BITS", code, 'M');
    code := OneMore("BITSM", code, 'G');
    NamesRoundTrip("BITSMG");
    assert NormalForm("BITSMG") == "BITSMG";
  }

  /** A number that is a multiple of 39 is decoded with the character before the digit 0. */
  lemma ZeroDigit(num: u32)
    requires 0 < num < NO_NAME && num % 39 == 0
    ensures NameOf(num) != [] && NameOf(num)[|NameOf(num)| - 1] == '/'
  {
    DigitsAreDigits(num, 6);
    assert Digits(num, 6) == Digits(num / 39, 5) + [0];
  }

  /** Decoding a code gives the name in upper case, with $ for unusual characters. */
  lemma NamesRoundTrip(key: string)
    requires IsKey(key)
    ensures 0 <= NumberOf(key) <= NO_NAME && NameOf(NumberOf(key)) == NormalForm(key)
  {
    CodesFit(key);
    if key != [] {
      var ds := DigitsOf(key);
      DigitsOfValue(ds, 6);
      forall i | 0 <= i < |key| ensures GlyphsOf(ds)[i] == NormalForm(key)[i] {
        GlyphOfDigit(key[i]);
      }
    }
  }

  /** Two names have the same code exactly when they have the same normal form. */
  lemma SameCodes(a: string, b: string)
    requires IsKey(a) && IsKey(b)
    ensures NumberOf(a) == NumberOf(b) <==> NormalForm(a) == NormalForm(b)
  {
    NamesRoundTrip(a);
    NamesRoundTrip(b);
    if NormalForm(a) == NormalForm(b) {
      forall i | 0 <= i < |a| ensures DigitsOf(a)[i] == DigitsOf(b)[i] {
        GlyphOfDigit(a[i]);
        GlyphOfDigit(b[i]);
        assert NormalForm(a)[i] == NormalForm(b)[i];
      }
      assert DigitsOf(a) == DigitsOf(b);
    }
  }

  /** A digit zero is decoded to a character that is encoded as 38. */
  lemma DigitOfGlyph(d: int)
    requires 0 <= d < 39
    ensures Digit(Glyph(d)) == if d == 0 then 38 else d
  {}

  lemma {:induction false} DigitsBelow(num: nat, n: nat)
    ensures Value(Digits(num, n)) <= num
    ensures num > 0 && n > 0 ==> Digits(num, n) != []
  {
    if num != 0 && n != 0 {
      DigitsBelow(num / 39, n - 1);
      var ds := Digits(num / 39, n - 1);
      assert (ds + [num % 39])[..|ds|] == ds;
    }
  }

  lemma Reencoded(num: u32)
    requires 0 < num < NO_NAME
    ensures var ds, es := Digits(num, 6), DigitsOf(NameOf(num));
            && ds != [] && |es| == |ds| <= 6 && IsDigits(ds) && IsDigits(es)
            && forall i :: 0 <= i < |ds| ==> es[i] == if ds[i] == 0 then 38 else ds[i]
  {
    DigitsAreDigits(num, 6);
    DigitsBelow(num, 6);
    var ds := Digits(num, 6);
    forall i | 0 <= i < |ds| ensures Digit(Glyph(ds[i])) == if ds[i] == 0 then 38 else ds[i] {
      DigitOfGlyph(ds[i]);
    }
  }

  /** nam2num undoes num2nam on the number of no name and on the numbers that six digits
      without a zero can write, and on no others. */
  lemma NumbersRoundTrip(num: u32)
    ensures NumberOf(NameOf(num)) == num
       <==> num == NO_NAME || (0 < num < CODES && NoZero(Digits(num, 6)))
  {
    if 0 < num < NO_NAME {
      Reencoded(num);
      var ds, es := Digits(num, 6), DigitsOf(NameOf(num));
      SixDigits();
      ValueBound(es);
      PowerGrows(|es|, 6);
      if num < CODES {
        ValueOfDigits(num, 6);
        ValueGrows(ds, es);
        if NoZero(ds) {
          assert es == ds;
        } else {
          assert es != ds;
        }
      }
    }
  }
}
