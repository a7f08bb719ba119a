/** Strings as the driver uses them: ASCII case folding, trimming, decimal
    numerals, and the byte-wise order behind slices.Sort and os.ReadDir. */
module Text {

  datatype Option<+T> = None | Some(value: T)

  // ---- case folding ---------------------------------------------------

  function LowerChar(c: char): char {
    if 'A' <= c <= 'Z' then (c as int + 32) as char else c
  }

  /** strings.ToLower on ASCII text. */
  function Lower(s: string): (r: string)
    ensures |r| == |s|
    ensures forall i :: 0 <= i < |s| ==> r[i] == LowerChar(s[i])
    ensures forall i :: 0 <= i < |s| && 'A' <= s[i] <= 'Z' ==> r[i] as int == s[i] as int + ('a' as int - 'A' as int)
    ensures forall i :: 0 <= i < |s| && !('A' <= s[i] <= 'Z') ==> r[i] == s[i]
  {
    seq(|s|, i requires 0 <= i < |s| => LowerChar(s[i]))
  }

  /** strings.EqualFold on ASCII text. */
  predicate EqualFold(a: string, b: string) {
    Lower(a) == Lower(b)
  }

  lemma LowerIdempotent(s: string)
    ensures Lower(Lower(s)) == Lower(s)
  {
    assert forall i :: 0 <= i < |s| ==> Lower(Lower(s))[i] == Lower(s)[i];
  }

  // ---- trimming ---------------------------------------------------------

  predicate IsSpace(c: char) {
    c == ' ' || c == '\t' || c == '\n' || c == '\r' || c == 11 as char || c == 12 as char
  }

  function TrimLeft(s: string): string {
    if s != [] && IsSpace(s[0]) then TrimLeft(s[1..]) else s
  }

  function TrimRight(s: string): string {
    if s != [] && IsSpace(s[|s| - 1]) then TrimRight(s[..|s| - 1]) else s
  }

  /** strings.TrimSpace on ASCII text. */
  function TrimSpace(s: string): string {
    TrimRight(TrimLeft(s))
  }

  predicate NoSpaces(s: string) {
    forall i :: 0 <= i < |s| ==> !IsSpace(s[i])
  }

  /** What the owner marker round trip relies on: the claim UID is written with a newline and read back trimmed. */
  lemma TrimLine(s: string)
    requires NoSpaces(s)
    ensures TrimSpace(s + "\n") == s
  {
    if s == [] {
      assert s + "\n" == "\n";
      assert TrimLeft("\n") == TrimLeft("\n"[1..]) == [];
    } else {
      var t := s + "\n";
      assert TrimLeft(t) == t;
      assert t[..|t| - 1] == s;
      assert TrimRight(t) == TrimRight(s) == s;
    }
  }

  /** The same after an interrupted write: what is read back is the part of the UID that was written. */
  lemma TrimCutLine(s: string, cut: nat)
    requires NoSpaces(s) && cut <= |s| + 1
    ensures TrimSpace((s + "\n")[..cut]) == if cut <= |s| then s[..cut] else s
  {
    if cut <= |s| {
      var t := s[..cut];
      assert (s + "\n")[..cut] == t;
      assert TrimLeft(t) == t && TrimRight(t) == t;
    } else {
      assert (s + "\n")[..cut] == s + "\n";
      TrimLine(s);
    }
  }

  lemma {:induction false} TrimLeftExactly(s: string) returns (i: nat)
    ensures i <= |s| && TrimLeft(s) == s[i..]
    ensures forall k :: 0 <= k < i ==> IsSpace(s[k])
    ensures i < |s| ==> !IsSpace(s[i])
  {
    i := 0;
    if s != [] && IsSpace(s[0]) {
      i := TrimLeftExactly(s[1..]);
      i := i + 1;
    }
  }

  lemma {:induction false} TrimRightExactly(s: string) returns (j: nat)
    ensures j <= |s| && TrimRight(s) == s[..j]
    ensures forall k :: j <= k < |s| ==> IsSpace(s[k])
    ensures j > 0 ==> !IsSpace(s[j - 1])
  {
    j := |s|;
    if s != [] && IsSpace(s[|s| - 1]) {
      j := TrimRightExactly(s[..|s| - 1]);
      assert s[..|s| - 1][..j] == s[..j];
    }
  }

  /** Trimming cuts off exactly the blanks at either end. */
  lemma TrimExactly(s: string) returns (i: nat, j: nat)
    ensures i <= j <= |s| && TrimSpace(s) == s[i..j]
    ensures forall k :: 0 <= k < i || j <= k < |s| ==> IsSpace(s[k])
    ensures i < j ==> !IsSpace(s[i]) && !IsSpace(s[j - 1])
  {
    i := TrimLeftExactly(s);
    j := TrimRightExactly(s[i..]);
    j := i + j;
    assert s[i..][..j - i] == s[i..j];
  }

  // ---- decimal numerals ---------------------------------------------------

  predicate IsDigit(c: char) { '0' <= c <= '9' }

  predicate AllDigits(s: string) {
    forall i :: 0 <= i < |s| ==> IsDigit(s[i])
  }

  function Digit(n: nat): (c: char)
    requires n < 10
    ensures IsDigit(c)
  {
    ('0' as int + n) as char
  }

  function DigitsValue(s: string): nat
    requires AllDigits(s)
  {
    if s == [] then 0 else 10 * DigitsValue(s[..|s| - 1]) + (s[|s| - 1] as int - '0' as int)
  }

  function NatText(n: nat): (s: string)
    ensures AllDigits(s) && s != []
  {
    if n < 10 then [Digit(n)] else NatText(n / 10) + [Digit(n % 10)]
  }

  /** strconv.Itoa and strconv.FormatInt(_, 10). */
  function Itoa(n: int): string {
    if n < 0 then "-" + NatText(-n) else NatText(n)
  }

  const MAX_INT64: int := 0x7FFF_FFFF_FFFF_FFFF

  function Ranged(n: int): Option<int> {
    if -MAX_INT64 - 1 <= n <= MAX_INT64 then Some(n) else None
  }

  /** strconv.ParseInt(_, 10, 64), which is strconv.Atoi on a 64-bit machine:
      an optional sign and at least one digit, within the 64-bit range. */
  function ParseInt(s: string): Option<int> {
    var digits := if s != [] && (s[0] == '-' || s[0] == '+') then s[1..] else s;
    if digits == [] || !AllDigits(digits) then None
    else
      var magnitude: int := DigitsValue(digits);
      Ranged(if s[0] == '-' then -magnitude else magnitude)
  }

  /** The numerals of a value: an optional sign and at least one digit. */
  ghost predicate IsNumeral(s: string, digits: string, n: int) {
    digits != [] && AllDigits(digits) &&
    (((s == digits || s == "+" + digits) && n == DigitsValue(digits)) || (s == "-" + digits && DigitsValue(digits) == -n))
  }

  lemma ParseIntExactly(s: string, n: int)
    ensures ParseInt(s) == Some(n) <==> -MAX_INT64 - 1 <= n <= MAX_INT64 && exists digits :: IsNumeral(s, digits, n)
  {
    if ParseInt(s) == Some(n) {
      var digits := if s[0] == '-' || s[0] == '+' then s[1..] else s;
      assert s == [s[0]] + s[1..];
      assert IsNumeral(s, digits, n);
    }
    forall digits | IsNumeral(s, digits, n) && -MAX_INT64 - 1 <= n <= MAX_INT64 ensures ParseInt(s) == Some(n) {
      assert IsDigit(digits[0]);
      if s != digits {
        assert s[1..] == digits;
      }
    }
  }

  lemma {:induction false} NatTextValue(n: nat)
    ensures DigitsValue(NatText(n)) == n
  {
    if n < 10 {
      assert NatText(n)[..0] == [];
    } else {
      NatTextValue(n / 10);
      var s := NatText(n);
      assert s[..|s| - 1] == NatText(n / 10);
    }
  }

  lemma ItoaInjective(m: nat, n: nat)
    requires Itoa(m) == Itoa(n)
    ensures m == n
  {
    NatTextValue(m);
    NatTextValue(n);
  }

  /** Printing a non-negative machine integer and parsing it back is the identity. */
  lemma ParsePrint(n: nat)
    requires n <= MAX_INT64
    ensures ParseInt(Itoa(n)) == Some(n)
  {
    NatTextValue(n);
    assert IsDigit(NatText(n)[0]);
  }

  // ---- order ---------------------------------------------------------------

  /** Lexicographic order on strings, the order of slices.Sort and of os.ReadDir listings. */
  predicate Le(a: string, b: string) {
    a == [] || (b != [] && (a[0] < b[0] || (a[0] == b[0] && Le(a[1..], b[1..]))))
  }

  /** The strings first differ at position k, where a has the smaller character. */
  ghost predicate SmallerAt(a: string, b: string, k: nat) {
    k < |a| && k < |b| && a[..k] == b[..k] && a[k] < b[k]
  }

  lemma SmallerAtTail(a: string, b: string, k: nat)
    requires a != [] && b != [] && a[0] == b[0]
    ensures SmallerAt(a, b, k + 1) <==> SmallerAt(a[1..], b[1..], k)
  {
    if k < |a[1..]| && k < |b[1..]| {
      assert a[..k + 1] == [a[0]] + a[1..][..k] && b[..k + 1] == [b[0]] + b[1..][..k];
      assert a[..k + 1][1..] == a[1..][..k] && b[..k + 1][1..] == b[1..][..k];
    }
  }

  /** One string comes before another exactly if it is a prefix or has the smaller character at the first difference. */
  lemma {:induction false} LeExactly(a: string, b: string)
    ensures Le(a, b) <==> a <= b || exists k :: SmallerAt(a, b, k)
  {
    if a != [] && b != [] {
      LeExactly(a[1..], b[1..]);
      if a[0] == b[0] {
        assert a == [a[0]] + a[1..] && b == [b[0]] + b[1..];
        assert !SmallerAt(a, b, 0);
        forall k: nat | SmallerAt(a, b, k) ensures k > 0 && SmallerAt(a[1..], b[1..], k - 1) { SmallerAtTail(a, b, k - 1); }
        forall k: nat | SmallerAt(a[1..], b[1..], k) ensures SmallerAt(a, b, k + 1) { SmallerAtTail(a, b, k); }
      } else {
        assert SmallerAt(a, b, 0) <==> a[0] < b[0];
        forall k: nat | k > 0 ensures !SmallerAt(a, b, k) {
          assert k < |a| && k < |b| ==> a[..k][0] == a[0] && b[..k][0] == b[0];
        }
      }
    }
  }

  lemma LeTotal(a: string, b: string)
    ensures Le(a, b) || Le(b, a)
  {}

  lemma {:induction false} LeAntisymmetric(a: string, b: string)
    requires Le(a, b) && Le(b, a)
    ensures a == b
  {
    if a != [] && b != [] {
      LeAntisymmetric(a[1..], b[1..]);
      assert a == [a[0]] + a[1..] && b == [b[0]] + b[1..];
    }
  }

  lemma {:induction false} LeTransitive(a: string, b: string, c: string)
    requires Le(a, b) && Le(b, c)
    ensures Le(a, c)
  {
    if a != [] && a[0] == b[0] == c[0] {
      LeTransitive(a[1..], b[1..], c[1..]);
    }
  }

  ghost predicate Sorted(s: seq<string>) {
    forall i, j :: 0 <= i < j < |s| ==> Le(s[i], s[j])
  }

  function Insert(x: string, s: seq<string>): (r: seq<string>)
    requires Sorted(s)
    ensures Sorted(r)
    ensures multiset(r) == multiset{x} + multiset(s)
  {
    if s == [] then [x]
    else
      assert s == [s[0]] + s[1..];
      if Le(x, s[0]) then
        assert forall j :: 0 <= j < |s| ==> Le(x, s[j]) by {
          forall j | 0 <= j < |s| ensures Le(x, s[j]) { if j > 0 { LeTransitive(x, s[0], s[j]); } }
        }
        [x] + s
      else
        var rest := Insert(x, s[1..]);
        assert forall y :: y in rest ==> Le(s[0], y) by {
          LeTotal(x, s[0]);
          forall y | y in rest ensures Le(s[0], y) { InsertMember(x, s, rest, y); }
        }
        [s[0]] + rest
  }

  lemma InsertMember(x: string, s: seq<string>, rest: seq<string>, y: string)
    requires s != [] && Sorted(s) && Le(s[0], x)
    requires multiset(rest) == multiset{x} + multiset(s[1..]) && y in rest
    ensures Le(s[0], y)
  {
    assert y in multiset(rest);
    if y != x {
      assert y in s[1..];
      var j :| 0 <= j < |s[1..]| && s[1..][j] == y;
      assert s[j + 1] == y;
    }
  }

  /** slices.Sort. */
  function Sort(s: seq<string>): (r: seq<string>)
    ensures Sorted(r)
    ensures multiset(r) == multiset(s)
  {
    if s == [] then []
    else
      assert s == [s[0]] + s[1..];
      Insert(s[0], Sort(s[1..]))
  }

  lemma SortedHead(a: seq<string>, b: seq<string>)
    requires Sorted(b) && a != [] && b != [] && multiset(a) == multiset(b)
    ensures Le(b[0], a[0])
  {
    assert a[0] in multiset(b);
    var i :| 0 <= i < |b| && b[i] == a[0];
    if i == 0 {
      LeTotal(b[0], b[0]);
    }
  }

  lemma TailMultiset(a: seq<string>)
    requires a != []
    ensures a == [a[0]] + a[1..] && multiset(a[1..]) == multiset(a) - multiset{a[0]}
  {
    assert a == [a[0]] + a[1..];
  }

  /** Two sorted lists of the same strings are the same list. */
  lemma {:induction false} SortedUnique(a: seq<string>, b: seq<string>)
    requires Sorted(a) && Sorted(b) && multiset(a) == multiset(b)
    ensures a == b
  {
    assert |a| == |multiset(a)| == |multiset(b)| == |b|;
    if a != [] {
      SortedHead(a, b);
      SortedHead(b, a);
      LeAntisymmetric(a[0], b[0]);
      TailMultiset(a);
      TailMultiset(b);
      SortedUnique(a[1..], b[1..]);
    }
  }

  /** Sorting forgets the order of its input. */
  lemma SortCanonical(a: seq<string>, b: seq<string>)
    requires multiset(a) == multiset(b)
    ensures Sort(a) == Sort(b)
  {
    SortedUnique(Sort(a), Sort(b));
  }

  // ---- listings -------------------------------------------------------------

  predicate Distinct<T(==)>(s: seq<T>) {
    forall i: nat, j: nat | i < j < |s| :: s[i] != s[j]
  }

  /** How many of the first n positions have a property. */
  ghost function HowMany(n: nat, p: nat -> bool): nat {
    |set i: nat | i < n && p(i)|
  }

  lemma HowManyStep(n: nat, p: nat -> bool)
    ensures HowMany(n + 1, p) == HowMany(n, p) + if p(n) then 1 else 0
  {
    var before := set i: nat | i < n && p(i);
    assert (set i: nat | i < n + 1 && p(i)) == before + if p(n) then {n} else {};
  }

  lemma HowManySame(n: nat, p: nat -> bool, q: nat -> bool)
    requires forall i: nat :: i < n ==> p(i) == q(i)
    ensures HowMany(n, p) == HowMany(n, q)
  {
    assert (set i: nat | i < n && p(i)) == (set i: nat | i < n && q(i));
  }

  /** The elements of a list that have a property. */
  ghost function Having(s: seq<string>, p: string -> bool): set<string> {
    set x | x in s && p(x)
  }

  lemma NoneHaving(p: string -> bool)
    ensures Having([], p) == {}
  {}

  lemma HavingStep(rest: seq<string>, last: string, p: string -> bool)
    requires last !in rest
    ensures |Having(rest + [last], p)| == |Having(rest, p)| + if p(last) then 1 else 0
  {
    assert Having(rest + [last], p) == Having(rest, p) + if p(last) then {last} else {};
  }

  lemma LeastExists(s: set<string>) returns (m: string)
    requires s != {}
    ensures m in s && forall x :: x in s ==> Le(m, x)
  {
    m :| m in s;
    if s == {m} {
      LeTotal(m, m);
    } else {
      var n := LeastExists(s - {m});
      LeTotal(m, n);
      if Le(m, n) {
        forall x | x in s ensures Le(m, x) {
          if x == m { LeTotal(m, m); } else { LeTransitive(m, n, x); }
        }
      } else {
        forall x | x in s ensures Le(n, x) {
          if x == m { } else { assert x in s - {m}; }
        }
        m := n;
      }
    }
  }

  function Least(s: set<string>): (m: string)
    requires s != {}
    ensures m in s && forall x :: x in s ==> Le(m, x)
  {
    var w := LeastWitness(s);
    assert forall x, y | x in s && y in s && Le(x, y) && Le(y, x) :: x == y by {
      forall x, y | x in s && y in s && Le(x, y) && Le(y, x) ensures x == y { LeAntisymmetric(x, y); }
    }
    var m :| m in s && forall x :: x in s ==> Le(m, x);
    m
  }

  ghost function LeastWitness(s: set<string>): (m: string)
    requires s != {}
    ensures m in s && forall x :: x in s ==> Le(m, x)
  {
    assert exists m :: m in s && forall x :: x in s ==> Le(m, x) by { var m := LeastExists(s); }
    var m :| m in s && forall x :: x in s ==> Le(m, x);
    m
  }

  /** The names of a directory as os.ReadDir lists them: each once, in order. */
  function Listing(s: set<string>): (r: seq<string>)
    ensures forall x :: x in r <==> x in s
    ensures Distinct(r)
  {
    if s == {} then [] else
      var m := Least(s);
      [m] + Listing(s - {m})
  }

  lemma SingletonListing(x: string)
    ensures Listing({x}) == [x]
  {
    assert Least({x}) == x;
    assert {x} - {x} == {};
  }

  /** The order in which a Go map is ranged over: any order the environment
      proposes, provided it lists exactly the keys. */
  function Arranged(order: seq<string>, keys: set<string>): (r: seq<string>)
    ensures forall x :: x in r <==> x in keys
    ensures Distinct(r)
    ensures Distinct(order) && (set x | x in order) == keys ==> r == order
  {
    if (forall x | x in order :: x in keys) && (forall x | x in keys :: x in order) && Distinct(order)
    then order else Listing(keys)
  }

  /** strings.Cut(s, "/"), first part. */
  function BeforeSlash(s: string): string {
    if s == [] || s[0] == '/' then [] else [s[0]] + BeforeSlash(s[1..])
  }

  /** The part of a string before its first slash, if it has one. */
  ghost predicate IsHead(head: string, s: string) {
    '/' !in head && (s == head || head + "/" <= s)
  }

  lemma {:induction false} BeforeSlashExactly(s: string, head: string)
    ensures BeforeSlash(s) == head <==> IsHead(head, s)
  {
    if s == [] || s[0] == '/' {
      if head == [] {
        assert s != [] ==> "/" <= s;
        assert head + "/" == "/";
      }
    } else {
      if head != [] {
        BeforeSlashExactly(s[1..], head[1..]);
        assert head == [head[0]] + head[1..] && s == [s[0]] + s[1..];
        if head[0] == s[0] {
          assert head + "/" == [head[0]] + (head[1..] + "/");
          assert head + "/" <= s <==> head[1..] + "/" <= s[1..];
        } else {
          assert !(head + "/" <= s) by { assert (head + "/")[0] == head[0]; }
        }
      } else {
        assert head + "/" == "/";
      }
    }
  }
}
