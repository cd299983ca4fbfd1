/** `process_genpass`: a password of the requested length drawn from the
    selected character classes, with at least one character from each selected
    class, shuffled, and returned as text. */
module GenPass {
  import opened Common
  import Utf8

  /** The bytes of an ASCII string literal (a `b"..."` literal). */
  function Bytes(s: string): (r: seq<byte>)
    requires forall i | 0 <= i < |s| :: s[i] as int < 128
    ensures |r| == |s| && forall i | 0 <= i < |s| :: r[i] == s[i] as int
  {
    seq(|s|, i requires 0 <= i < |s| => s[i] as int)
  }

  /** The four classes. Letters and digits that are easy to confuse (`I`, `O`,
      `l`, `0`) are missing on purpose. */
  const UPPER: seq<byte> := Bytes("ABCDEFGHJKLMNPQRSTUVWXYZ")
  const LOWER: seq<byte> := Bytes("abcdefghijkmnopqrstuvwxyz")
  const NUMBER: seq<byte> := Bytes("123456789")
  const SYMBOL: seq<byte> := Bytes("!@#$%^&*_")

  /** The `expect` messages of the two places that take a random element. */
  const CHARS_EMPTY: string := "chars won't be empty in the context"
  /** The message of a `u8` subtraction that goes below zero in a debug build. */
  const SUBTRACT_OVERFLOW: string := "attempt to subtract with overflow"

  /** `chars` after one of the `if`s before the loop. */
  function Extend(chars: seq<byte>, selected: bool, alphabet: seq<byte>): seq<byte>
  {
    if selected then chars + alphabet else chars
  }

  /** `chars`: the selected classes, concatenated in the fixed order. */
  function Pool(upper: bool, lower: bool, number: bool, symbol: bool): (r: seq<byte>)
    ensures forall c :: c in r <==>
      (upper && c in UPPER) || (lower && c in LOWER) || (number && c in NUMBER) || (symbol && c in SYMBOL)
  {
    Extend(Extend(Extend(Extend([], upper, UPPER), lower, LOWER), number, NUMBER), symbol, SYMBOL)
  }

  /** How many characters are placed before the loop: one per selected class. */
  function ClassCount(upper: bool, lower: bool, number: bool, symbol: bool): nat
  {
    (if upper then 1 else 0) + (if lower then 1 else 0) +
    (if number then 1 else 0) + (if symbol then 1 else 0)
  }

  /** `c` is one of the bytes of `alphabet`. */
  predicate Drawn(c: char, alphabet: seq<byte>)
  {
    c as int in alphabet
  }

  /** Some character of `password` comes from `alphabet`. */
  predicate Covers(password: string, alphabet: seq<byte>)
  {
    exists i | 0 <= i < |password| :: Drawn(password[i], alphabet)
  }

  /** The upper-case class: capital letters without `I` and `O`. */
  lemma UpperLetters()
    ensures forall x | x in UPPER :: 'A' as int <= x <= 'Z' as int && x != 'I' as int && x != 'O' as int
  {
  }

  /** The lower-case class: small letters without `l`. */
  lemma LowerLetters()
    ensures forall x | x in LOWER :: 'a' as int <= x <= 'z' as int && x != 'l' as int
  {
  }

  /** The number class: the digits without `0`. */
  lemma NumberDigits()
    ensures forall x | x in NUMBER :: '1' as int <= x <= '9' as int
  {
  }

  /** The symbol class: ASCII punctuation, neither letter nor digit. */
  lemma SymbolPunctuation()
    ensures forall x | x in SYMBOL ::
      x < '0' as int || ('9' as int < x < 'A' as int) || ('Z' as int < x < 'a' as int) || ('z' as int < x < 0x80)
  {
  }

  /** Every class is ASCII, so the pool is too. */
  lemma PoolIsAscii(upper: bool, lower: bool, number: bool, symbol: bool)
    ensures forall x | x in Pool(upper, lower, number, symbol) :: x < 0x80
  {
    UpperLetters();
    LowerLetters();
    NumberDigits();
    SymbolPunctuation();
  }

  /** The pool is empty exactly when no class is selected. */
  lemma EmptyPool(upper: bool, lower: bool, number: bool, symbol: bool)
    ensures Pool(upper, lower, number, symbol) == [] <==> ClassCount(upper, lower, number, symbol) == 0
  {
    assert |UPPER| == 24 && |LOWER| == 25 && |NUMBER| == 9 && |SYMBOL| == 9;
  }

  /** None of the look-alike characters can appear in a password. */
  lemma NoLookAlikes(upper: bool, lower: bool, number: bool, symbol: bool)
    ensures 'I' as int !in Pool(upper, lower, number, symbol)
    ensures 'O' as int !in Pool(upper, lower, number, symbol)
    ensures 'l' as int !in Pool(upper, lower, number, symbol)
    ensures '0' as int !in Pool(upper, lower, number, symbol)
  {
    UpperLetters();
    LowerLetters();
    NumberDigits();
    SymbolPunctuation();
  }

  /** The classes share no character, so a character identifies its class. */
  lemma ClassesDisjoint()
    ensures forall x | x in UPPER :: x !in LOWER && x !in NUMBER && x !in SYMBOL
    ensures forall x | x in LOWER :: x !in NUMBER && x !in SYMBOL
    ensures forall x | x in NUMBER :: x !in SYMBOL
  {
    UpperLetters();
    LowerLetters();
    NumberDigits();
    SymbolPunctuation();
  }

  /** `SliceRandom::choose`: `None` for an empty slice, otherwise some element
      of it. */
  method Choose(s: seq<byte>) returns (r: Option<byte>)
    ensures r.None? <==> |s| == 0
    ensures r.Some? ==> r.value in s
  {
    if |s| == 0 {
      return None;
    }
    var i :| 0 <= i < |s|;
    r := Some(s[i]);
  }

  /** `SliceRandom::shuffle`: Fisher-Yates from the back, swapping each position
      with a random one at or before it. The contents are kept as a multiset. */
  method Shuffle(a: array<byte>)
    modifies a
    ensures multiset(a[..]) == multiset(old(a[..]))
  {
    var i := a.Length;
    while i > 1
      invariant 0 <= i <= a.Length
      invariant multiset(a[..]) == multiset(old(a[..]))
    {
      i := i - 1;
      var j :| 0 <= j <= i;
      a[i], a[j] := a[j], a[i];
    }
  }

  /** Sequences with the same multiset have the same length and members. */
  lemma SameMembers(before: seq<byte>, after: seq<byte>)
    requires multiset(after) == multiset(before)
    ensures |after| == |before|
    ensures forall x :: x in after <==> x in before
  {
    assert |after| == |multiset(after)|;
    assert |before| == |multiset(before)|;
    forall x ensures x in after <==> x in before {
      assert x in after <==> x in multiset(after);
      assert x in before <==> x in multiset(before);
    }
  }

  /** A byte of the password that lies in `alphabet` shows up as a character of
      the decoded text. */
  lemma CoveredBy(text: string, bytes: seq<byte>, x: byte, alphabet: seq<byte>)
    requires |text| == |bytes| && forall i | 0 <= i < |bytes| :: text[i] as int == bytes[i]
    requires x in bytes && x in alphabet
    ensures Covers(text, alphabet)
  {
    var i :| 0 <= i < |bytes| && bytes[i] == x;
    assert Drawn(text[i], alphabet);
  }

  /** Every character of `password` is one of `chars`. */
  predicate Within(password: seq<byte>, chars: seq<byte>)
  {
    forall x | x in password :: x in chars
  }

  /** One `if` before the loop: the class joins `chars`, and one random
      character of it joins `password`. */
  method AddClass(password: seq<byte>, chars: seq<byte>, alphabet: seq<byte>)
    returns (password': seq<byte>, chars': seq<byte>, ghost x: byte)
    requires alphabet != []
    requires Within(password, chars)
    ensures chars' == chars + alphabet
    ensures password' == password + [x] && x in alphabet
    ensures Within(password', chars')
  {
    var c := Choose(alphabet);
    password', chars', x := password + [c.value], chars + alphabet, c.value;
  }

  /** The part of `process_genpass` before the loop: `chars` collects the
      selected classes and `password` one random character of each. */
  method Seed(upper: bool, lower: bool, number: bool, symbol: bool)
    returns (password: seq<byte>, chars: seq<byte>, ghost u: byte, ghost l: byte, ghost n: byte, ghost s: byte)
    ensures chars == Pool(upper, lower, number, symbol)
    ensures |password| == ClassCount(upper, lower, number, symbol)
    ensures Within(password, chars)
    ensures upper ==> u in password && u in UPPER
    ensures lower ==> l in password && l in LOWER
    ensures number ==> n in password && n in NUMBER
    ensures symbol ==> s in password && s in SYMBOL
  {
    assert UPPER != [] && LOWER != [] && NUMBER != [] && SYMBOL != [] by {
      EmptyPool(true, true, true, true);
    }
    password, chars := [], [];
    u, l, n, s := 0, 0, 0, 0;
    if upper {
      password, chars, u := AddClass(password, chars, UPPER);
    }
    assert chars == Extend([], upper, UPPER);
    if lower {
      password, chars, l := AddClass(password, chars, LOWER);
    }
    assert chars == Extend(Extend([], upper, UPPER), lower, LOWER);
    if number {
      password, chars, n := AddClass(password, chars, NUMBER);
    }
    assert chars == Extend(Extend(Extend([], upper, UPPER), lower, LOWER), number, NUMBER);
    if symbol {
      password, chars, s := AddClass(password, chars, SYMBOL);
    }
  }

  /** `process_genpass`. A debug build stops when fewer characters are asked for
      than classes are selected (the `u8` subtraction before the loop) and when
      characters are asked for with no class selected (the `expect` in the
      loop); otherwise the password has the requested length, draws every
      character from the selected classes and holds at least one character of
      each of them. */
  method ProcessGenpass(length: byte, upper: bool, lower: bool, number: bool, symbol: bool)
    returns (r: Result<string>)
    ensures length < ClassCount(upper, lower, number, symbol) ==> r == Err(Panic(SUBTRACT_OVERFLOW))
    ensures ClassCount(upper, lower, number, symbol) == 0 < length ==> r == Err(Panic(CHARS_EMPTY))
    ensures r.Err? <==> length < ClassCount(upper, lower, number, symbol) ||
                        ClassCount(upper, lower, number, symbol) == 0 < length
    ensures r.Ok? ==> |r.value| == length as int && Utf8.IsAscii(r.value)
    ensures r.Ok? ==> forall i | 0 <= i < |r.value| :: Drawn(r.value[i], Pool(upper, lower, number, symbol))
    ensures r.Ok? ==> (upper ==> Covers(r.value, UPPER)) && (lower ==> Covers(r.value, LOWER))
    ensures r.Ok? ==> (number ==> Covers(r.value, NUMBER)) && (symbol ==> Covers(r.value, SYMBOL))
  {
    var password, chars, u, l, n, s := Seed(upper, lower, number, symbol);
    EmptyPool(upper, lower, number, symbol);

    if length < |password| {
      return Err(Panic(SUBTRACT_OVERFLOW));
    }
    var remaining := length as int - |password|;
    var k := 0;
    while k < remaining
      invariant 0 <= k <= remaining
      invariant |password| == ClassCount(upper, lower, number, symbol) + k
      invariant Within(password, chars)
      invariant chars == [] ==> k == 0
      invariant upper ==> u in password
      invariant lower ==> l in password
      invariant number ==> n in password
      invariant symbol ==> s in password
    {
      var c := Choose(chars);
      if c.None? {
        return Err(Panic(CHARS_EMPTY));
      }
      password := password + [c.value];
      k := k + 1;
    }

    var a := new byte[|password|](i requires 0 <= i < |password| => password[i]);
    assert a[..] == password;
    Shuffle(a);
    var shuffled := a[..];
    SameMembers(password, shuffled);
    PoolIsAscii(upper, lower, number, symbol);
    forall i | 0 <= i < |shuffled| ensures shuffled[i] < 0x80 {
      assert shuffled[i] in password;
    }
    Utf8.DecodeAscii(shuffled);
    var text := Utf8.Decode(shuffled);
    r := Ok(text.value);

    if upper { CoveredBy(text.value, shuffled, u, UPPER); }
    if lower { CoveredBy(text.value, shuffled, l, LOWER); }
    if number { CoveredBy(text.value, shuffled, n, NUMBER); }
    if symbol { CoveredBy(text.value, shuffled, s, SYMBOL); }
  }
}
