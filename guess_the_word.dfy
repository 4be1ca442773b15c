/**
 * The bookkeeping of projects/GuessTheWord/main.js: the zero-padded counter
 * display, the order of the hidden letters in the answer, the comparison of
 * the guesses with the answer, and the score / incorrect / remaining counters.
 */
module GuessTheWord {
  import opened JsMath
  import Scrambler

  // ---------------------------------------------------------------------------
  // Decimal strings and `padding`

  function DigitChar(d: nat): (c: char)
    requires d < 10
    ensures '0' <= c <= '9'
  {
    ('0' as int + d) as char
  }

  /** `String(n)` for a natural number. */
  function Digits(n: nat): (s: string)
    ensures |s| >= 1 && forall i :: 0 <= i < |s| ==> '0' <= s[i] <= '9'
  {
    if n < 10 then [DigitChar(n)] else Digits(n / 10) + [DigitChar(n % 10)]
  }

  /** `String(n)` for an integer. */
  function Decimal(n: int): (s: string)
    ensures |s| >= 1
  {
    if n < 0 then "-" + Digits(-n) else Digits(n)
  }

  function Zeros(k: nat): (z: string)
    ensures |z| == k && forall i :: 0 <= i < k ==> z[i] == '0'
  {
    seq(k, _ => '0')
  }

  /** `s.slice(-k)`: the last k characters, the whole string when it is shorter,
      and also the whole string for k = 0, since -0 is 0. */
  function Tail(s: string, k: nat): (r: string)
    ensures k == 0 || k >= |s| ==> r == s
    ensures 0 < k <= |s| ==> |r| == k && r == s[|s| - k..]
  {
    if k == 0 || k >= |s| then s else s[|s| - k..]
  }

  /** `padding(num, length) = (Array(length).join("0") + num).slice(-length)`. */
  function Padding(num: int, length: nat): (r: string)
    ensures length >= 1 ==> |r| == length
  {
    var zeros := if length == 0 then "" else Zeros(length - 1);
    Tail(zeros + Decimal(num), length)
  }

  /** Reference definition: the k low decimal digits of n, most significant first. */
  function LowDigits(n: nat, k: nat): (s: string)
    ensures |s| == k && forall i :: 0 <= i < k ==> '0' <= s[i] <= '9'
  {
    if k == 0 then [] else LowDigits(n / 10, k - 1) + [DigitChar(n % 10)]
  }

  function Pow10(k: nat): (p: nat)
    ensures p >= 1
  {
    if k == 0 then 1 else 10 * Pow10(k - 1)
  }

  /** The value of a string of decimal digits. */
  function Value(s: string): nat
    requires forall i :: 0 <= i < |s| ==> '0' <= s[i] <= '9'
  {
    if s == [] then 0 else 10 * Value(s[..|s| - 1]) + (s[|s| - 1] as int - '0' as int)
  }

  lemma LowDigitsOfZero(k: nat)
    ensures LowDigits(0, k) == Zeros(k)
  {
    if k > 0 {
      LowDigitsOfZero(k - 1);
    }
  }

  /** The last k characters of j zeros followed by s, once j + |s| >= k, do not
      depend on how many zeros there are beyond that. */
  lemma TailDropZero(s: string, k: nat, j: nat)
    requires 1 <= k <= j + |s|
    ensures Tail(Zeros(j + 1) + s, k) == Tail(Zeros(j) + s, k)
  {
    var a, b := Zeros(j + 1) + s, Zeros(j) + s;
    assert a == ['0'] + b;
    assert a[|a| - k..] == b[|b| - k..];
  }

  /** The tail of length k of k - 1 zeros and the digits of n is n's k low digits. */
  lemma {:induction false} TailZerosDigits(n: nat, k: nat)
    requires k >= 1
    ensures Tail(Zeros(k - 1) + Digits(n), k) == LowDigits(n, k)
  {
    if n < 10 {
      TailZerosOneDigit(n, k);
    } else if k == 1 {
      TailLastDigit(n);
    } else {
      TailZerosDigits(n / 10, k - 1);
      TailZerosDigitsStep(n, k);
    }
  }

  lemma TailZerosOneDigit(n: nat, k: nat)
    requires k >= 1 && n < 10
    ensures Tail(Zeros(k - 1) + Digits(n), k) == LowDigits(n, k)
  {
    var s := Zeros(k - 1) + Digits(n);
    assert Digits(n) == [DigitChar(n)];
    assert n / 10 == 0 && n % 10 == n;
    assert LowDigits(n, k) == LowDigits(0, k - 1) + [DigitChar(n)];
    LowDigitsOfZero(k - 1);
    assert |s| == k;
  }

  lemma TailLastDigit(n: nat)
    requires n >= 10
    ensures Tail(Zeros(0) + Digits(n), 1) == LowDigits(n, 1)
  {
    var d := Digits(n);
    assert d == Digits(n / 10) + [DigitChar(n % 10)];
    assert Zeros(0) + d == d;
    assert d[|d| - 1..] == [DigitChar(n % 10)];
  }

  lemma TailZerosDigitsStep(n: nat, k: nat)
    requires k >= 2 && n >= 10
    requires Tail(Zeros(k - 2) + Digits(n / 10), k - 1) == LowDigits(n / 10, k - 1)
    ensures Tail(Zeros(k - 1) + Digits(n), k) == LowDigits(n, k)
  {
    var p, c := Digits(n / 10), DigitChar(n % 10);
    TailDropZero(p, k - 1, k - 2);
    var x := Zeros(k - 1) + p;
    assert Zeros(k - 1) + Digits(n) == x + [c];
    TailSnoc(x, c, k);
  }

  /** The last k characters of x + [c] are the last k - 1 of x, then c. */
  lemma TailSnoc(x: string, c: char, k: nat)
    requires k >= 2
    ensures Tail(x + [c], k) == Tail(x, k - 1) + [c]
  {
    if k - 1 < |x| {
      assert (x + [c])[|x| + 1 - k..] == x[|x| - (k - 1)..] + [c];
    }
  }

  /** `padding(n, length)` of a natural number is its `length` low digits, zero-padded. */
  lemma PaddingIsLowDigits(n: nat, length: nat)
    requires length >= 1
    ensures Padding(n, length) == LowDigits(n, length)
  {
    PaddingNat(n, length);
    TailZerosDigits(n, length);
  }

  /** A number of at most `length` digits is shown zero-padded to `length`. */
  lemma PaddingShort(n: nat, length: nat)
    requires 1 <= |Digits(n)| <= length
    ensures Padding(n, length) == Zeros(length - |Digits(n)|) + Digits(n)
  {
    var d, j := Digits(n), |Digits(n)| - 1;
    PaddingNat(n, length);
    TailKeepsSuffix(Zeros(length - 1), d, length, j);
    ZerosSuffix(length - 1, j);
  }

  lemma PaddingNat(n: nat, length: nat)
    requires length >= 1
    ensures Padding(n, length) == Tail(Zeros(length - 1) + Digits(n), length)
  {
  }

  /** The last k characters of z + d, once d fits in them, end with all of d. */
  lemma TailKeepsSuffix(z: string, d: string, k: nat, j: nat)
    requires 1 <= |d| <= k <= |z| + |d| && j == |z| + |d| - k
    ensures Tail(z + d, k) == z[j..] + d
  {
    var s := z + d;
    assert s[|s| - k..] == z[j..] + d;
  }

  /** Dropping j zeros from a run of n zeros leaves n - j zeros. */
  lemma ZerosSuffix(n: nat, j: nat)
    requires j <= n
    ensures Zeros(n)[j..] == Zeros(n - j)
  {
  }

  /** The reference digits have the value n mod 10^k. */
  lemma {:induction false} LowDigitsValue(n: nat, k: nat)
    ensures Value(LowDigits(n, k)) == n % Pow10(k)
  {
    if k > 0 {
      var s := LowDigits(n, k);
      LowDigitsValue(n / 10, k - 1);
      assert s[..|s| - 1] == LowDigits(n / 10, k - 1);
      var q, r, m := n / 10, n % 10, Pow10(k - 1);
      var b := q % m;
      assert Value(s) == 10 * b + r;
      ModStep(n, q, r, m);
    }
  }

  lemma ModStep(n: nat, q: nat, r: nat, m: nat)
    requires m >= 1 && q == n / 10 && r == n % 10
    ensures n % (10 * m) == 10 * (q % m) + r
  {
    var a, b := q / m, q % m;
    var d := 10 * m;
    assert q == a * m + b;
    assert n == 10 * q + r;
    assert n == a * d + (10 * b + r) by {
      assert 10 * (a * m) == a * d;
    }
    ModUnique(n, d, a, 10 * b + r);
  }

  /** The remainder is the unique b in [0, d) with n = a * d + b. */
  lemma ModUnique(n: int, d: int, a: int, b: int)
    requires d > 0 && n == a * d + b && 0 <= b < d
    ensures n % d == b
  {
    var x, y := n / d, n % d;
    assert n == x * d + y;
    var k := x - a;
    assert k * d == b - y by {
      assert k * d == x * d - a * d;
    }
  }

  /** A one-digit counter is shown with two leading zeros. */
  lemma PaddingSeven()
    ensures Padding(7, 3) == "007"
  {
    PaddingIsLowDigits(7, 3);
    assert DigitChar(7) == '7' && DigitChar(0) == '0';
    assert LowDigits(0, 1) == "0";
    assert LowDigits(0, 2) == "00";
  }

  /** A four-digit number keeps only its three low digits. */
  lemma PaddingTruncates()
    ensures Padding(1234, 3) == "234"
  {
    PaddingIsLowDigits(1234, 3);
    assert DigitChar(2) == '2' && DigitChar(3) == '3' && DigitChar(4) == '4';
    assert LowDigits(12, 1) == "2";
    assert LowDigits(123, 2) == "23";
  }


  // ---------------------------------------------------------------------------
  // The order of the answer

  /** JavaScript's `<` on strings: lexicographic by code unit. */
  predicate LexLess(s: string, t: string)
  {
    if s == [] then t != []
    else if t == [] then false
    else if s[0] != t[0] then s[0] < t[0]
    else LexLess(s[1..], t[1..])
  }

  lemma {:induction false} LexLessAsymmetric(s: string, t: string)
    ensures !(LexLess(s, t) && LexLess(t, s))
  {
    if s != [] && t != [] && s[0] == t[0] {
      LexLessAsymmetric(s[1..], t[1..]);
    }
  }

  /** `<` on strings is negatively transitive: anything lies above the lower
      or below the upper of two ordered strings. */
  lemma {:induction false} LexLessSplit(a: string, b: string, c: string)
    requires LexLess(a, c)
    ensures LexLess(a, b) || LexLess(b, c)
  {
    if a != [] && b != [] && a[0] == b[0] && b[0] == c[0] {
      LexLessSplit(a[1..], b[1..], c[1..]);
    }
  }

  /** Comparing p + [c] with q + [d] for |p| == |q|: first p with q, then c with d. */
  lemma {:induction false} LexLessAppend(p: string, q: string, c: char, d: char)
    requires |p| == |q|
    ensures LexLess(p + [c], q + [d]) <==> LexLess(p, q) || (p == q && c < d)
  {
    if p != [] {
      assert (p + [c])[1..] == p[1..] + [c];
      assert (q + [d])[1..] == q[1..] + [d];
      LexLessAppend(p[1..], q[1..], c, d);
      if p[0] == q[0] {
        assert p == q <==> p[1..] == q[1..];
      }
    }
  }

  /** Two numbers with the same count of digits compare as their decimal strings do. */
  lemma {:induction false} SameWidthLexLess(a: nat, b: nat)
    requires a < b && |Digits(a)| == |Digits(b)|
    ensures LexLess(Digits(a), Digits(b))
  {
    if b < 10 {
      assert Digits(a) == [DigitChar(a)] && Digits(b) == [DigitChar(b)];
    } else {
      assert a >= 10;
      var p, q := Digits(a / 10), Digits(b / 10);
      assert Digits(a) == p + [DigitChar(a % 10)];
      assert Digits(b) == q + [DigitChar(b % 10)];
      assert a / 10 <= b / 10;
      if a / 10 < b / 10 {
        SameWidthLexLess(a / 10, b / 10);
      } else {
        assert a % 10 < b % 10;
      }
      LexLessAppend(p, q, DigitChar(a % 10), DigitChar(b % 10));
    }
  }

  /** `id` of a tile: its index as a string. */
  function Key(i: nat): string
  {
    Digits(i)
  }

  /** Place x before the first element whose key is not below x's key. */
  function InsertByKey(x: nat, s: seq<nat>): seq<nat>
  {
    if s == [] || !LexLess(Key(s[0]), Key(x)) then [x] + s
    else [s[0]] + InsertByKey(x, s[1..])
  }

  /** `Object.keys(unordered).sort()` AS WRITTEN: the hidden tile indices ordered
      by their decimal strings. */
  function SortByKey(keys: seq<nat>): seq<nat>
  {
    if keys == [] then [] else InsertByKey(keys[0], SortByKey(keys[1..]))
  }

  lemma {:induction false} InsertByKeyPermutes(x: nat, s: seq<nat>)
    ensures multiset(InsertByKey(x, s)) == multiset(s) + multiset{x}
  {
    if s != [] && LexLess(Key(s[0]), Key(x)) {
      InsertByKeyPermutes(x, s[1..]);
      assert InsertByKey(x, s) == [s[0]] + InsertByKey(x, s[1..]);
      assert s == [s[0]] + s[1..];
    }
  }

  /** No key is below the key before it. */
  ghost predicate KeySorted(s: seq<nat>)
  {
    |s| <= 1 || (!LexLess(Key(s[1]), Key(s[0])) && KeySorted(s[1..]))
  }

  /** Every key is at or above every key before it, in string order. */
  ghost predicate KeyOrdered(s: seq<nat>)
  {
    forall i, j :: 0 <= i < j < |s| ==> !LexLess(Key(s[j]), Key(s[i]))
  }

  lemma {:induction false} KeySortedOrdered(s: seq<nat>)
    requires KeySorted(s)
    ensures KeyOrdered(s)
  {
    if |s| > 1 {
      KeySortedOrdered(s[1..]);
      forall i, j | 0 <= i < j < |s|
        ensures !LexLess(Key(s[j]), Key(s[i]))
      {
        if i > 0 {
          assert s[i] == s[1..][i - 1] && s[j] == s[1..][j - 1];
        } else if j > 1 {
          assert s[1] == s[1..][0] && s[j] == s[1..][j - 1];
          if LexLess(Key(s[j]), Key(s[0])) {
            LexLessSplit(Key(s[j]), Key(s[1]), Key(s[0]));
          }
        }
      }
    }
  }

  /** The inserted key comes first, or the list's first key stays first. */
  lemma InsertByKeyHead(x: nat, s: seq<nat>)
    ensures InsertByKey(x, s) != []
    ensures InsertByKey(x, s)[0] == x || (s != [] && InsertByKey(x, s)[0] == s[0])
  {
  }

  lemma {:induction false} InsertByKeySorted(x: nat, s: seq<nat>)
    requires KeySorted(s)
    ensures KeySorted(InsertByKey(x, s))
  {
    if s != [] && LexLess(Key(s[0]), Key(x)) {
      var r := InsertByKey(x, s[1..]);
      InsertByKeySorted(x, s[1..]);
      InsertByKeyHead(x, s[1..]);
      LexLessAsymmetric(Key(s[0]), Key(x));
      assert InsertByKey(x, s) == [s[0]] + r;
      assert ([s[0]] + r)[1..] == r;
    }
  }

  /** The sort as written orders the keys by their strings: with
      `SortByKeyPermutes`, it is JavaScript's default `sort()` of distinct keys. */
  lemma {:induction false} SortByKeySorted(keys: seq<nat>)
    ensures KeyOrdered(SortByKey(keys))
  {
    SortByKeyIsSorted(keys);
    KeySortedOrdered(SortByKey(keys));
  }

  lemma {:induction false} SortByKeyIsSorted(keys: seq<nat>)
    ensures KeySorted(SortByKey(keys))
  {
    if keys != [] {
      SortByKeyIsSorted(keys[1..]);
      InsertByKeySorted(keys[0], SortByKey(keys[1..]));
    }
  }

  /** The sort only reorders: the result is a permutation of the keys. */
  lemma {:induction false} SortByKeyPermutes(keys: seq<nat>)
    ensures multiset(SortByKey(keys)) == multiset(keys)
  {
    if keys != [] {
      SortByKeyPermutes(keys[1..]);
      InsertByKeyPermutes(keys[0], SortByKey(keys[1..]));
      assert keys == [keys[0]] + keys[1..];
    }
  }

  predicate Ascending(s: seq<nat>)
  {
    forall j, k :: 0 <= j < k < |s| ==> s[j] < s[k]
  }

  /** While every index has the same number of digits, string order is tile
      order: sorting ascending keys leaves them as they are. */
  lemma {:induction false} SameWidthKeepsOrder(keys: seq<nat>, w: nat)
    requires Ascending(keys) && forall j :: 0 <= j < |keys| ==> |Digits(keys[j])| == w
    ensures SortByKey(keys) == keys
  {
    if keys != [] {
      SameWidthKeepsOrder(keys[1..], w);
      if |keys| > 1 {
        SameWidthLexLess(keys[0], keys[1]);
        LexLessAsymmetric(Key(keys[0]), Key(keys[1]));
      }
      assert keys == [keys[0]] + keys[1..];
    }
  }

  /** The letters of `word` at the given tiles, as one-letter strings. */
  function Letters(word: string, ps: seq<nat>): (r: seq<string>)
    requires forall j :: 0 <= j < |ps| ==> ps[j] < |word|
    ensures |r| == |ps| && forall j :: 0 <= j < |ps| ==> r[j] == [word[ps[j]]]
  {
    seq(|ps|, j requires 0 <= j < |ps| => [word[ps[j]]])
  }

  /** `array.toString()`: the elements joined with commas. */
  function CommaJoin(xs: seq<string>): string
  {
    if |xs| == 0 then "" else if |xs| == 1 then xs[0] else xs[0] + "," + CommaJoin(xs[1..])
  }

  predicate CommaFree(xs: seq<string>)
  {
    forall j :: 0 <= j < |xs| ==> ',' !in xs[j]
  }

  lemma CommaAt(x: string, y: string)
    ensures (x + "," + y)[|x|] == ','
    ensures forall i :: 0 <= i < |x| ==> (x + "," + y)[i] == x[i]
  {
  }

  /** Splitting at the first comma: comma-free heads must agree. */
  lemma FirstComma(x: string, y: string, u: string, v: string)
    requires ',' !in x && ',' !in u && x + "," + y == u + "," + v
    ensures x == u && y == v
  {
    var l, r := x + "," + y, u + "," + v;
    CommaAt(x, y);
    CommaAt(u, v);
    if |x| < |u| {
      assert false;
    } else if |u| < |x| {
      assert false;
    }
    assert x == l[..|x|] && u == r[..|u|];
    assert y == l[|x| + 1..] && v == r[|u| + 1..];
  }

  lemma CommaFreeJoin(xs: seq<string>)
    requires CommaFree(xs) && |xs| <= 1
    ensures ',' !in CommaJoin(xs)
  {
  }

  /** With comma-free entries and as many guesses as answer letters, the joined
      strings agree exactly when every guess equals its answer letter. */
  lemma {:induction false} CommaJoinInjective(a: seq<string>, b: seq<string>)
    requires |a| == |b| && CommaFree(a) && CommaFree(b)
    ensures CommaJoin(a) == CommaJoin(b) <==> a == b
  {
    if |a| >= 2 && CommaJoin(a) == CommaJoin(b) {
      FirstComma(a[0], CommaJoin(a[1..]), b[0], CommaJoin(b[1..]));
      CommaJoinInjective(a[1..], b[1..]);
      assert a == [a[0]] + a[1..] && b == [b[0]] + b[1..];
    }
  }

  lemma SmallKeys()
    ensures Key(0) == "0" && Key(1) == "1" && Key(2) == "2" && Key(3) == "3"
    ensures Key(4) == "4" && Key(10) == "10"
  {
    assert Digits(10) == Digits(1) + [DigitChar(0)];
  }

  /** Inserting 4, 3 and 2 in front of "10" moves each behind it. */
  lemma InsertBehindTen()
    ensures InsertByKey(4, [10]) == [10, 4]
    ensures InsertByKey(3, [10, 4]) == [10, 3, 4]
    ensures InsertByKey(2, [10, 3, 4]) == [10, 2, 3, 4]
  {
    SmallKeys();
    assert LexLess("10", "2") && LexLess("10", "3") && LexLess("10", "4");
    assert [10, 4][1..] == [4] && [10, 3, 4][1..] == [3, 4] && [10, 2, 3, 4][1..] == [2, 3, 4];
  }

  /** Inserting 1 and 0 keeps them in front. */
  lemma InsertInFront()
    ensures InsertByKey(1, [10, 2, 3, 4]) == [1, 10, 2, 3, 4]
    ensures InsertByKey(0, [1, 10, 2, 3, 4]) == [0, 1, 10, 2, 3, 4]
  {
    SmallKeys();
    assert !LexLess("10", "1") && !LexLess("1", "0");
  }

  /** Sorting the keys of tiles 0-4 and 10 as strings puts "10" before "2". */
  lemma SortTenBeforeTwo()
    ensures SortByKey([0, 1, 2, 3, 4, 10]) == [0, 1, 10, 2, 3, 4]
  {
    InsertBehindTen();
    InsertInFront();
    assert [0, 1, 2, 3, 4, 10][1..] == [1, 2, 3, 4, 10];
    assert [1, 2, 3, 4, 10][1..] == [2, 3, 4, 10];
    assert [2, 3, 4, 10][1..] == [3, 4, 10];
    assert [3, 4, 10][1..] == [4, 10];
    assert [4, 10][1..] == [10];
    assert SortByKey([10]) == [10];
    assert SortByKey([4, 10]) == [10, 4];
    assert SortByKey([3, 4, 10]) == [10, 3, 4];
    assert SortByKey([2, 3, 4, 10]) == [10, 2, 3, 4];
    assert SortByKey([1, 2, 3, 4, 10]) == [1, 10, 2, 3, 4];
  }

  /** A word of at least eleven letters whose hidden tiles are 0-4 and 10 (for
      "abcdefghijk": the answer as written is k after b, the tiles read c after
      b): when its third and eleventh letters differ, the letters typed in the
      tiles' order do not match the answer as written. */
  lemma AsWrittenRejectsCorrectGuesses(w: string)
    requires |w| >= 11 && w[2] != w[10] && ',' !in w
    ensures CommaJoin(Letters(w, [0, 1, 10, 2, 3, 4])) != CommaJoin(Letters(w, [0, 1, 2, 3, 4, 10]))
    ensures SortByKey([0, 1, 2, 3, 4, 10]) == [0, 1, 10, 2, 3, 4]
  {
    var asWritten, intended := Letters(w, [0, 1, 10, 2, 3, 4]), Letters(w, [0, 1, 2, 3, 4, 10]);
    LettersCommaFree(w, [0, 1, 10, 2, 3, 4]);
    LettersCommaFree(w, [0, 1, 2, 3, 4, 10]);
    assert asWritten[2] == [w[10]] && intended[2] == [w[2]];
    CommaJoinInjective(asWritten, intended);
    SortTenBeforeTwo();
  }

  /** One-letter strings taken from a comma-free word are comma-free. */
  lemma LettersCommaFree(w: string, ps: seq<nat>)
    requires ',' !in w && forall j :: 0 <= j < |ps| ==> ps[j] < |w|
    ensures CommaFree(Letters(w, ps))
  {
    forall j | 0 <= j < |ps|
      ensures ',' !in Letters(w, ps)[j]
    {
      assert w[ps[j]] in w;
    }
  }

  // ---------------------------------------------------------------------------
  // Tiles, hidden positions and the answer in page order

  /** The tiles from i on whose `disabled` flag is v, in page order. */
  function PositionsFrom(d: seq<bool>, v: bool, i: nat): seq<nat>
    requires i <= |d|
    decreases |d| - i
  {
    if i == |d| then [] else (if d[i] == v then [i] else []) + PositionsFrom(d, v, i + 1)
  }

  /** Every listed tile is at or after i and has the flag v. */
  lemma {:induction false} PositionsSound(d: seq<bool>, v: bool, i: nat)
    requires i <= |d|
    ensures forall j :: 0 <= j < |PositionsFrom(d, v, i)| ==>
      i <= PositionsFrom(d, v, i)[j] < |d| && d[PositionsFrom(d, v, i)[j]] == v
    decreases |d| - i
  {
    if i < |d| {
      PositionsSound(d, v, i + 1);
      var head, rest := (if d[i] == v then [i] else []), PositionsFrom(d, v, i + 1);
      var r := head + rest;
      assert PositionsFrom(d, v, i) == r;
      forall j | 0 <= j < |r|
        ensures i <= r[j] < |d| && d[r[j]] == v
      {
        if j >= |head| {
          assert r[j] == rest[j - |head|];
        }
      }
    }
  }

  /** Every tile at or after i with the flag v is listed. */
  lemma {:induction false} PositionsComplete(d: seq<bool>, v: bool, i: nat)
    requires i <= |d|
    ensures forall p :: i <= p < |d| && d[p] == v ==> p in PositionsFrom(d, v, i)
    decreases |d| - i
  {
    if i < |d| {
      PositionsComplete(d, v, i + 1);
    }
  }

  /** The tiles are listed in page order. */
  lemma {:induction false} PositionsAscending(d: seq<bool>, v: bool, i: nat)
    requires i <= |d|
    ensures Ascending(PositionsFrom(d, v, i))
    decreases |d| - i
  {
    if i < |d| {
      PositionsAscending(d, v, i + 1);
      PositionsSound(d, v, i + 1);
      var head, rest := (if d[i] == v then [i] else []), PositionsFrom(d, v, i + 1);
      var r := head + rest;
      assert PositionsFrom(d, v, i) == r;
      forall j, k | 0 <= j < k < |r|
        ensures r[j] < r[k]
      {
        assert r[k] == rest[k - |head|];
        if j >= |head| {
          assert r[j] == rest[j - |head|];
        }
      }
    }
  }

  /** Every tile from i on is either disabled or not. */
  lemma {:induction false} PositionsPartition(d: seq<bool>, i: nat)
    requires i <= |d|
    ensures |PositionsFrom(d, true, i)| + |PositionsFrom(d, false, i)| == |d| - i
    decreases |d| - i
  {
    if i < |d| {
      PositionsPartition(d, i + 1);
    }
  }

  /** Enabling one disabled tile removes exactly one position from the disabled ones. */
  lemma {:induction false} EnableOne(d: seq<bool>, g: nat, i: nat)
    requires i <= g < |d| && d[g]
    ensures |PositionsFrom(d[g := false], true, i)| == |PositionsFrom(d, true, i)| - 1
    decreases |d| - i
  {
    var e := d[g := false];
    if i < g {
      EnableOne(d, g, i + 1);
      var h := if d[i] then [i] else [];
      assert e[i] == d[i];
      assert PositionsFrom(e, true, i) == h + PositionsFrom(e, true, i + 1);
      assert PositionsFrom(d, true, i) == h + PositionsFrom(d, true, i + 1);
    } else {
      EnableOneAt(d, g);
    }
  }

  lemma EnableOneAt(d: seq<bool>, g: nat)
    requires g < |d| && d[g]
    ensures |PositionsFrom(d[g := false], true, g)| == |PositionsFrom(d, true, g)| - 1
  {
    var e := d[g := false];
    UnchangedAfter(d, e, g + 1);
    assert PositionsFrom(e, true, g) == PositionsFrom(e, true, g + 1);
    assert PositionsFrom(d, true, g) == [g] + PositionsFrom(d, true, g + 1);
  }

  lemma {:induction false} NoneEnabled(d: seq<bool>, i: nat)
    requires i <= |d| && forall p :: i <= p < |d| ==> d[p]
    ensures PositionsFrom(d, false, i) == []
    decreases |d| - i
  {
    if i < |d| {
      NoneEnabled(d, i + 1);
    }
  }

  lemma {:induction false} UnchangedAfter(d: seq<bool>, e: seq<bool>, i: nat)
    requires i <= |d| == |e| && d[i..] == e[i..]
    ensures PositionsFrom(d, true, i) == PositionsFrom(e, true, i)
    decreases |d| - i
  {
    if i < |d| {
      assert d[i] == d[i..][0] && e[i] == e[i..][0];
      assert d[i + 1..] == d[i..][1..] && e[i + 1..] == e[i..][1..];
      UnchangedAfter(d, e, i + 1);
    }
  }

  /** `Math.floor(Math.random() * n)` for a draw in [0,1) is an index below n. */
  lemma PickInRange(p: real, n: nat)
    requires 0.0 <= p < 1.0 && n >= 1
    ensures 0 <= Floor(p * n as real) < n
  {
    MulNonneg(p, n as real);
    MulNonneg(1.0 - p, n as real);
    assert (1.0 - p) * n as real > 0.0;
  }

  /** The index `Math.floor(p * n)` picked by the draw p. */
  function PickIndex(p: real, n: nat): (j: nat)
    requires 0.0 <= p < 1.0 && n >= 1
    ensures j < n
  {
    PickInRange(p, n);
    Floor(p * n as real)
  }

  /** Draws of `Math.random()` for one `setWord`: one per hidden tile, each in [0,1). */
  predicate ValidPicks(w: string, picks: seq<real>)
  {
    |picks| >= (|w| + 1) / 2 && forall j :: 0 <= j < |picks| ==> 0.0 <= picks[j] < 1.0
  }

  /** `toLowerCase()` on ASCII letters. */
  function LowerWord(w: string): (r: string)
    ensures |r| == |w| && forall i :: 0 <= i < |w| ==> r[i] == Scrambler.ToLower(w[i])
  {
    seq(|w|, i requires 0 <= i < |w| => Scrambler.ToLower(w[i]))
  }

  function LowerAll(xs: seq<string>): (r: seq<string>)
    ensures |r| == |xs| && forall i :: 0 <= i < |xs| ==> r[i] == LowerWord(xs[i])
  {
    seq(|xs|, i requires 0 <= i < |xs| => LowerWord(xs[i]))
  }

  /** The entries of data whose keys are in done. */
  function Written(data: map<string, int>, done: set<string>): map<string, int>
    requires done <= data.Keys
  {
    map k | k in done :: data[k]
  }

  /** The padded text of the entries of data whose keys are in done. */
  function Shown(data: map<string, int>, done: set<string>): map<string, string>
    requires done <= data.Keys
  {
    map k | k in done :: Padding(data[k], 3)
  }

  lemma WrittenStep(m: map<string, int>, data: map<string, int>, done: set<string>, k: string,
                    s: map<string, int>)
    requires done <= data.Keys && k in data && s == m + Written(data, done)
    ensures s[k := data[k]] == m + Written(data, done + {k})
  {
  }

  lemma ShownStep(m: map<string, string>, data: map<string, int>, done: set<string>, k: string,
                  d: map<string, string>)
    requires done <= data.Keys && k in data && d == m + Shown(data, done)
    ensures d[k := Padding(data[k], 3)] == m + Shown(data, done + {k})
  {
  }

  lemma WrittenAll(m: map<string, int>, data: map<string, int>)
    ensures m + Written(data, data.Keys) == m + data
  {
    assert Written(data, data.Keys) == data;
  }

  /** The enabled (hidden) tiles, in page order. */
  function Enabled(tiles: seq<bool>): (h: seq<nat>)
    ensures forall j :: 0 <= j < |h| ==> h[j] < |tiles| && !tiles[h[j]]
  {
    PositionsSound(tiles, false, 0);
    PositionsFrom(tiles, false, 0)
  }

  /** The hidden letters recorded so far: exactly the enabled tiles, each
      under its index with its letter. */
  ghost predicate Recorded(word: string, tiles: seq<bool>, unordered: map<nat, string>)
  {
    |tiles| == |word| &&
    (forall p :: p in unordered <==> 0 <= p < |word| && !tiles[p]) &&
    (forall p :: p in unordered ==> unordered[p] == [word[p]])
  }

  lemma RecordStep(word: string, tiles: seq<bool>, unordered: map<nat, string>, g: nat)
    requires Recorded(word, tiles, unordered) && g < |tiles|
    ensures Recorded(word, tiles[g := false], unordered[g := [word[g]]])
  {
  }

  /** Enabling a disabled tile moves one position from the disabled list to the enabled one. */
  lemma EnableCount(tiles: seq<bool>, g: nat)
    requires g < |tiles| && tiles[g]
    ensures |PositionsFrom(tiles[g := false], true, 0)| == |PositionsFrom(tiles, true, 0)| - 1
    ensures |PositionsFrom(tiles[g := false], false, 0)| == |PositionsFrom(tiles, false, 0)| + 1
  {
    EnableOne(tiles, g, 0);
    PositionsPartition(tiles, 0);
    PositionsPartition(tiles[g := false], 0);
  }

  /** The j-th listed tile is a tile with the flag v. */
  lemma PositionAt(d: seq<bool>, v: bool, j: nat)
    requires j < |PositionsFrom(d, v, 0)|
    ensures PositionsFrom(d, v, 0)[j] < |d| && d[PositionsFrom(d, v, 0)[j]] == v
  {
    PositionsSound(d, v, 0);
  }

  /** Before the loop every tile is disabled and nothing is recorded. */
  lemma InitialRecord(word: string, tiles: seq<bool>)
    requires |tiles| == |word| && forall p :: 0 <= p < |tiles| ==> tiles[p]
    ensures Recorded(word, tiles, map[])
    ensures |PositionsFrom(tiles, false, 0)| == 0 && |PositionsFrom(tiles, true, 0)| == |word|
  {
    PositionsPartition(tiles, 0);
    NoneEnabled(tiles, 0);
  }

  /** The first loop of `setWord`: all tiles start disabled; each round enables
      the tile `letters[Math.floor(pick * letters.length)]` among the still
      disabled ones and records its letter under its index. */
  method EnableTiles(word: string, picks: seq<real>) returns (tiles: seq<bool>, unordered: map<nat, string>)
    requires ValidPicks(word, picks)
    ensures Recorded(word, tiles, unordered) && |Enabled(tiles)| == (|word| + 1) / 2
  {
    tiles := seq(|word|, _ => true);
    unordered := map[];
    InitialRecord(word, tiles);
    var numGuesses := (|word| + 1) / 2;
    var i := 0;
    while i < numGuesses
      invariant 0 <= i <= numGuesses && Recorded(word, tiles, unordered)
      invariant |PositionsFrom(tiles, false, 0)| == i
      invariant |PositionsFrom(tiles, true, 0)| == |word| - i
    {
      var letters := PositionsFrom(tiles, true, 0);
      var j := PickIndex(picks[i], |letters|);
      PositionAt(tiles, true, j);
      var g := letters[j];
      EnableCount(tiles, g);
      RecordStep(word, tiles, unordered, g);
      tiles := tiles[g := false];
      unordered := unordered[g := [word[g]]];
      i := i + 1;
    }
  }

  /** The second loop of `setWord`, with the keys taken in page order (the
      order `Object.keys` already lists integer keys in): the answer is the
      hidden letters in the order the guesses are read. */
  method AnswerInPageOrder(word: string, tiles: seq<bool>, unordered: map<nat, string>)
    returns (answer: seq<string>)
    requires Recorded(word, tiles, unordered)
    ensures answer == Letters(word, Enabled(tiles))
  {
    var hidden := Enabled(tiles);
    answer := [];
    var j := 0;
    while j < |hidden|
      invariant 0 <= j <= |hidden| && answer == Letters(word, hidden[..j])
    {
      answer := answer + [unordered[hidden[j]]];
      j := j + 1;
    }
    assert hidden[..j] == hidden;
  }

  /** The loop of `updateGameState`, key by key in any order: the counters
      and their padded text after every key of data is written. */
  method StoreAll(state: map<string, int>, display: map<string, string>, data: map<string, int>)
    returns (s: map<string, int>, d: map<string, string>)
    ensures s == state + data && d == display + Shown(data, data.Keys)
  {
    s, d := state, display;
    var todo := data.Keys;
    ghost var done: set<string> := {};
    while todo != {}
      invariant todo + done == data.Keys && todo !! done
      invariant s == state + Written(data, done)
      invariant d == display + Shown(data, done)
      decreases |todo|
    {
      var k :| k in todo;
      WrittenStep(state, data, done, k, s);
      ShownStep(display, data, done, k, d);
      s := s[k := data[k]];
      d := d[k := Padding(data[k], 3)];
      todo := todo - {k};
      done := done + {k};
    }
    WrittenAll(state, data);
  }

  const SCORE: string := "yourCurrentScore"
  const INCORRECT: string := "incorrectGuesses"
  const REMAINING: string := "remainingGuesses"
  /** The counters `reset` writes. */
  const RESET_COUNTERS: map<string, int> := map[SCORE := 0, INCORRECT := 0, REMAINING := 10]

  /** The game: `gameState`, the counters' text on the page, the word, the
      tiles' `disabled` flags and the answer. */
  class Game {
    var state: map<string, int>
    var display: map<string, string>
    var word: string
    /** `disabled` of each tile; the hidden tiles are the enabled ones. */
    var tiles: seq<bool>
    var answer: seq<string>

    ghost predicate Counters()
      reads this
    {
      SCORE in state && INCORRECT in state && REMAINING in state
    }

    /** The hidden tiles, in page order. */
    function Hidden(): (h: seq<nat>)
      reads this
      ensures forall j :: 0 <= j < |h| ==> h[j] < |tiles| && !tiles[h[j]]
    {
      Enabled(tiles)
    }

    /** Half the word (rounded up) is hidden, and the answer holds the hidden
        letters in page order: the order in which the guesses are read. */
    ghost predicate WordValid()
      reads this
    {
      |tiles| == |word| && |Hidden()| == (|word| + 1) / 2 && answer == Letters(word, Hidden())
    }

    ghost predicate Valid()
      reads this
    {
      Counters() && state[INCORRECT] + state[REMAINING] == 10 && 1 <= state[REMAINING] <= 10 &&
      WordValid()
    }

    /** The counters a wrong guess writes: one more incorrect, one fewer remaining. */
    static function Miss(state: map<string, int>): (m: map<string, int>)
      requires INCORRECT in state && REMAINING in state
      ensures m.Keys == {INCORRECT, REMAINING}
      ensures m[INCORRECT] == state[INCORRECT] + 1 && m[REMAINING] == state[REMAINING] - 1
    {
      map[INCORRECT := state[INCORRECT] + 1, REMAINING := state[REMAINING] - 1]
    }

    /** The initial `gameState` (0, 0, 10), before any word is set. */
    constructor()
      ensures Valid()
      ensures state == map[SCORE := 0, INCORRECT := 0, REMAINING := 10]
      ensures word == [] && answer == []
    {
      state := map[SCORE := 0, INCORRECT := 0, REMAINING := 10];
      display := map[];
      word := [];
      tiles := [];
      answer := [];
    }

    /** `updateGameState(data)`: each key of data is stored and shown padded
        to three digits; every other counter is left as it was. */
    method UpdateGameState(data: map<string, int>)
      modifies this
      ensures state == old(state) + data
      ensures display == old(display) + Shown(data, data.Keys)
      ensures forall k :: k in old(state) && k !in data ==> k in state && state[k] == old(state)[k]
      ensures word == old(word) && tiles == old(tiles) && answer == old(answer)
      ensures WordValid() == old(WordValid())
    {
      state, display := StoreAll(state, display, data);
    }

    /** `setWord` for the word w and the draws `picks`: ceil(|w| / 2) tiles are
        enabled, and the answer lists their letters in page order. */
    method SetWord(w: string, picks: seq<real>)
      requires ValidPicks(w, picks)
      modifies this
      ensures WordValid() && word == LowerWord(w)
      ensures state == old(state) && display == old(display)
    {
      var lower := LowerWord(w);
      var t, unordered := EnableTiles(lower, picks);
      var a := AnswerInPageOrder(lower, t, unordered);
      word := lower;
      tiles := t;
      answer := a;
    }

    /** `reset`: a new word and the counters back to (0, 0, 10). */
    method Reset(nextWord: string, picks: seq<real>)
      requires ValidPicks(nextWord, picks)
      modifies this
      ensures Valid()
      ensures state == old(state) + RESET_COUNTERS
      ensures display == old(display) + Shown(RESET_COUNTERS, RESET_COUNTERS.Keys)
      ensures word == LowerWord(nextWord)
    {
      SetWord(nextWord, picks);
      UpdateGameState(RESET_COUNTERS);
    }

    /** `checkEndOfGame`: out of guesses resets the game; otherwise nothing changes. */
    method CheckEndOfGame(nextWord: string, picks: seq<real>)
      requires Counters() && WordValid() && state[INCORRECT] + state[REMAINING] == 10
      requires 0 <= state[REMAINING] <= 10 && ValidPicks(nextWord, picks)
      modifies this
      ensures Valid()
      ensures old(state[REMAINING]) == 0 ==>
        state == old(state) + RESET_COUNTERS && word == LowerWord(nextWord) &&
        display == old(display) + Shown(RESET_COUNTERS, RESET_COUNTERS.Keys)
      ensures old(state[REMAINING]) != 0 ==>
        state == old(state) && word == old(word) && answer == old(answer) &&
        tiles == old(tiles) && display == old(display)
    {
      if state[REMAINING] == 0 {
        Reset(nextWord, picks);
      }
    }

    /** `check` with the letters typed in the tiles, in page order. A match of
        the comma-joined strings scores and sets the next word; a miss costs a
        guess, and the last guess resets the game. */
    method Check(inputs: seq<string>, nextWord: string, picks: seq<real>) returns (correct: bool)
      requires Valid() && ValidPicks(nextWord, picks)
      modifies this
      ensures Valid()
      ensures correct == (CommaJoin(LowerAll(inputs)) == CommaJoin(old(answer)))
      ensures correct ==>
        state[SCORE] == old(state[SCORE]) + 1 && state[INCORRECT] == old(state[INCORRECT]) &&
        state[REMAINING] == old(state[REMAINING]) && word == LowerWord(nextWord)
      ensures correct ==>
        display == old(display) + Shown(map[SCORE := old(state[SCORE]) + 1], {SCORE})
      ensures !correct && old(state[REMAINING]) > 1 ==>
        state[SCORE] == old(state[SCORE]) && state[INCORRECT] == old(state[INCORRECT]) + 1 &&
        state[REMAINING] == old(state[REMAINING]) - 1 && word == old(word) && answer == old(answer)
      ensures !correct && old(state[REMAINING]) > 1 ==>
        tiles == old(tiles) && display == old(display) + Shown(Miss(old(state)), {INCORRECT, REMAINING})
      ensures !correct && old(state[REMAINING]) == 1 ==>
        state[SCORE] == 0 && state[INCORRECT] == 0 && state[REMAINING] == 10 &&
        word == LowerWord(nextWord)
      ensures !correct && old(state[REMAINING]) == 1 ==>
        display == old(display) + Shown(Miss(old(state)), {INCORRECT, REMAINING})
                   + Shown(RESET_COUNTERS, RESET_COUNTERS.Keys)
    {
      var guesses := LowerAll(inputs);
      correct := CommaJoin(guesses) == CommaJoin(answer);
      if correct {
        Scored(nextWord, picks);
      } else {
        Missed(nextWord, picks);
      }
    }

    /** The right-guess branch of `check`: a new word, and one more point. */
    method Scored(nextWord: string, picks: seq<real>)
      requires Valid() && ValidPicks(nextWord, picks)
      modifies this
      ensures Valid()
      ensures state[SCORE] == old(state[SCORE]) + 1 && state[INCORRECT] == old(state[INCORRECT]) &&
        state[REMAINING] == old(state[REMAINING]) && word == LowerWord(nextWord)
      ensures display == old(display) + Shown(map[SCORE := old(state[SCORE]) + 1], {SCORE})
    {
      var score := state[SCORE];
      SetWord(nextWord, picks);
      UpdateGameState(map[SCORE := score + 1]);
    }

    /** The wrong-guess branch of `check`: the same tiles for another try, one
        guess moved from remaining to incorrect, and a reset after the last. */
    method Missed(nextWord: string, picks: seq<real>)
      requires Valid() && ValidPicks(nextWord, picks)
      modifies this
      ensures Valid()
      ensures old(state[REMAINING]) > 1 ==>
        state[SCORE] == old(state[SCORE]) && state[INCORRECT] == old(state[INCORRECT]) + 1 &&
        state[REMAINING] == old(state[REMAINING]) - 1 && word == old(word) && answer == old(answer)
      ensures old(state[REMAINING]) > 1 ==>
        tiles == old(tiles) && display == old(display) + Shown(Miss(old(state)), {INCORRECT, REMAINING})
      ensures old(state[REMAINING]) == 1 ==>
        state[SCORE] == 0 && state[INCORRECT] == 0 && state[REMAINING] == 10 &&
        word == LowerWord(nextWord)
      ensures old(state[REMAINING]) == 1 ==>
        display == old(display) + Shown(Miss(old(state)), {INCORRECT, REMAINING})
                   + Shown(RESET_COUNTERS, RESET_COUNTERS.Keys)
    {
      UpdateGameState(Miss(state));
      CheckEndOfGame(nextWord, picks);
    }
  }

  lemma LowerIdempotent(w: string)
    ensures LowerWord(LowerWord(w)) == LowerWord(w)
  {
  }

  /** The intended answer order: typing each hidden letter into its tile, in
      any case, is accepted. */
  lemma TypedAnswerAccepted(w: string, hidden: seq<nat>)
    requires forall j :: 0 <= j < |hidden| ==> hidden[j] < |w|
    ensures var answer := Letters(LowerWord(w), hidden);
      CommaJoin(LowerAll(Letters(w, hidden))) == CommaJoin(answer)
  {
    var answer := Letters(LowerWord(w), hidden);
    forall j | 0 <= j < |hidden|
      ensures LowerAll(Letters(w, hidden))[j] == answer[j]
    {
      assert LowerWord([w[hidden[j]]]) == [Scrambler.ToLower(w[hidden[j]])];
    }
    assert LowerAll(Letters(w, hidden)) == answer;
  }

  /** For words of at most ten letters every tile index is one digit, so the
      answer as written is the answer in page order. */
  lemma AsWrittenAgreesUpToTen(tiles: seq<bool>)
    requires |tiles| <= 10
    ensures SortByKey(Enabled(tiles)) == Enabled(tiles)
  {
    var h := Enabled(tiles);
    PositionsAscending(tiles, false, 0);
    forall j | 0 <= j < |h|
      ensures |Digits(h[j])| == 1
    {
    }
    SameWidthKeepsOrder(h, 1);
  }
}
