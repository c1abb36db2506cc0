/**
 Password validation and generation of services/auth/password_policy.go. draw(k) stands for the k-th random
 number, fails(k) says whether the k-th read of the random source failed; characters are single bytes.
 */
module PasswordPolicy {

  datatype Policy = Policy(minLength: int, requireUppercase: bool, requireLowercase: bool, requireDigit: bool,
                           requireSpecial: bool)

  datatype Verdict = Accepted | TooShort | NoUppercase | NoLowercase | NoDigit | NoSpecial

  const UPPER := "ABCDEFGHIJKLMNOPQRSTUVWXYZ"
  const LOWER := "abcdefghijklmnopqrstuvwxyz"
  const DIGITS := "0123456789"
  const SPECIAL := "!@#$%^&*()_+-=[]{}|;:,.<>?"

  /** The character class of the special-character expression in Validate. */
  const SPECIAL_CLASS := "!@#$%^&*()_+-=[]{};':\"\\|,.<>/?"

  predicate HasUpper(s: string) { exists i :: 0 <= i < |s| && 'A' <= s[i] <= 'Z' }
  predicate HasLower(s: string) { exists i :: 0 <= i < |s| && 'a' <= s[i] <= 'z' }
  predicate HasDigit(s: string) { exists i :: 0 <= i < |s| && '0' <= s[i] <= '9' }
  predicate HasSpecial(s: string) { exists i :: 0 <= i < |s| && s[i] in SPECIAL_CLASS }

  function Validate(p: Policy, password: string): Verdict {
    if |password| < p.minLength then TooShort
    else if p.requireUppercase && !HasUpper(password) then NoUppercase
    else if p.requireLowercase && !HasLower(password) then NoLowercase
    else if p.requireDigit && !HasDigit(password) then NoDigit
    else if p.requireSpecial && !HasSpecial(password) then NoSpecial
    else Accepted
  }

  function Charset(p: Policy): (chars: string)
    ensures chars != []
  {
    var chars := (if p.requireUppercase then UPPER else "") + (if p.requireLowercase then LOWER else "")
               + (if p.requireDigit then DIGITS else "") + (if p.requireSpecial then SPECIAL else "");
    if |chars| == 0 then LOWER + DIGITS else chars
  }

  function Required(p: Policy): nat {
    (if p.requireUppercase then 1 else 0) + (if p.requireLowercase then 1 else 0)
    + (if p.requireDigit then 1 else 0) + (if p.requireSpecial then 1 else 0)
  }

  /** At least twelve characters, and room for the required ones. */
  function Length(p: Policy): nat {
    var length := if p.minLength < 12 then 12 else p.minLength;
    if Required(p) > length then Required(p) + 4 else length
  }

  /** Failed is the error return; Panic is the nil number that a failed read leaves behind in the shuffle. */
  datatype Generated = Password(value: string) | Failed | Panic

  /** randIndex: a failed read counts as zero. */
  function RandIndex(draw: nat -> nat, fails: nat -> bool, k: nat, max: nat): (i: nat)
    requires max > 0
    ensures i < max
  {
    if fails(k) then 0 else draw(k) % max
  }

  function Swap(s: string, i: nat, j: nat): (t: string)
    requires i < |s| && j < |s|
    ensures |t| == |s|
  {
    s[i := s[j]][j := s[i]]
  }

  /** The first n characters shuffled with the draws from k on. */
  function Shuffled(s: string, draw: nat -> nat, k: nat, n: nat): string
    requires n <= |s|
    decreases n
  {
    if n <= 1 then s else Shuffled(Swap(s, n - 1, draw(k) % n), draw, k + 1, n - 1)
  }

  lemma ShuffledStep(s: string, draw: nat -> nat, k: nat, n: nat)
    requires 1 < n <= |s|
    ensures Shuffled(s, draw, k, n) == Shuffled(Swap(s, n - 1, draw(k) % n), draw, k + 1, n - 1)
  {
  }

  lemma ShuffledEnd(s: string, draw: nat -> nat, k: nat, n: nat)
    requires n <= 1 && n <= |s|
    ensures Shuffled(s, draw, k, n) == s
  {
  }

  /** The shuffle at the end of GenerateRandomPassword; it does not look at the error of a read. */
  method Shuffle(a: array<char>, draw: nat -> nat, fails: nat -> bool, start: nat) returns (ok: bool)
    modifies a
    ensures !ok <==> exists k :: start <= k < start + a.Length - 1 && fails(k)
    ensures ok ==> a[..] == Shuffled(old(a[..]), draw, start, a.Length)
  {
    hide Shuffled, Swap;
    var i: int, k: nat := a.Length - 1, start;
    while i > 0
      invariant -1 <= i < a.Length && k == start + (a.Length - 1 - i)
      invariant forall m :: start <= m < k ==> !fails(m)
      invariant Shuffled(a[..], draw, k, i + 1) == Shuffled(old(a[..]), draw, start, a.Length)
      decreases i
    {
      if fails(k) {
        return false;
      }
      var j := draw(k) % (i + 1);
      ghost var s := a[..];
      ShuffledStep(s, draw, k, i + 1);
      a[i], a[j] := a[j], a[i];
      SwapIs(s, a[..], i, j);
      i, k := i - 1, k + 1;
    }
    ShuffledEnd(a[..], draw, k, i + 1);
    return true;
  }

  lemma SwapIs(s: string, t: string, i: nat, j: nat)
    requires |s| == |t| && i < |s| && j < |s| && t[i] == s[j] && t[j] == s[i]
    requires forall m :: 0 <= m < |s| && m != i && m != j ==> t[m] == s[m]
    ensures t == Swap(s, i, j)
  {
  }

  lemma SwapKeeps(s: string, i: nat, j: nat)
    requires i < |s| && j < |s|
    ensures multiset(Swap(s, i, j)) == multiset(s)
  {
  }

  lemma {:induction false} ShuffledKeeps(s: string, draw: nat -> nat, k: nat, n: nat)
    requires n <= |s|
    ensures multiset(Shuffled(s, draw, k, n)) == multiset(s)
    decreases n
  {
    if n > 1 {
      SwapKeeps(s, n - 1, draw(k) % n);
      ShuffledKeeps(Swap(s, n - 1, draw(k) % n), draw, k + 1, n - 1);
    }
  }

  lemma {:induction false} SameDraws(s: string, d: nat -> nat, e: nat -> nat, k: nat, n: nat)
    requires n <= |s| && forall m :: m >= k ==> d(m) == e(m)
    ensures Shuffled(s, d, k, n) == Shuffled(s, e, k, n)
    decreases n
  {
    if n > 1 {
      SameDraws(Swap(s, n - 1, d(k) % n), d, e, k + 1, n - 1);
    }
  }

  lemma SplitBag(s: string, n: nat)
    requires n <= |s|
    ensures multiset(s) == multiset(s[..n]) + multiset(s[n..])
  {
    assert s == s[..n] + s[n..];
  }

  /** t is an order of the characters of s, and s has it already from place n on. */
  ghost predicate PlacedFrom(s: string, t: string, n: nat) {
    multiset(s) == multiset(t) && |s| == |t| && n <= |s| && s[n..] == t[n..]
  }

  /** The character for place n - 1 is among the first n. */
  lemma FindPlace(s: string, t: string, n: nat) returns (j: nat)
    requires PlacedFrom(s, t, n) && 0 < n
    ensures j < n <= |s| == |t| && s[j] == t[n - 1]
  {
    SplitBag(s, n);
    SplitBag(t, n);
    var x, y := s[..n], t[..n];
    assert multiset(x) == multiset(s) - multiset(s[n..]) && multiset(y) == multiset(t) - multiset(t[n..]);
    assert y[n - 1] in multiset(y);
    j :| 0 <= j < n && x[j] == y[n - 1];
  }

  lemma PlaceOne(s: string, t: string, n: nat, j: nat)
    requires PlacedFrom(s, t, n) && j < n && s[j] == t[n - 1]
    ensures PlacedFrom(Swap(s, n - 1, j), t, n - 1)
  {
    SwapKeeps(s, n - 1, j);
    SwapPlaces(s, n - 1, j);
    hide Swap;
    forall m | n <= m < |s| ensures s[m] == t[m] {
      assert s[m] == s[n..][m - n] && t[m] == t[n..][m - n];
    }
    SameTail(Swap(s, n - 1, j), t, n - 1);
  }

  lemma SwapPlaces(s: string, i: nat, j: nat)
    requires i < |s| && j <= i
    ensures Swap(s, i, j)[i] == s[j] && forall m :: i < m < |s| ==> Swap(s, i, j)[m] == s[m]
  {
  }

  lemma SameTail(s: string, t: string, n: nat)
    requires |s| == |t| && n <= |s| && forall m :: n <= m < |s| ==> s[m] == t[m]
    ensures s[n..] == t[n..]
  {
  }

  lemma AllPlaced(s: string, t: string, n: nat)
    requires PlacedFrom(s, t, n) && n <= 1
    ensures s == t
  {
    assert s == s[..n] + s[n..] && t == t[..n] + t[n..];
    if n == 1 {
      var j := FindPlace(s, t, n);
    }
  }

  lemma Short(s: string, t: string, draw: nat -> nat, k: nat, n: nat)
    requires PlacedFrom(s, t, n) && n <= 1
    ensures n <= |s| && Shuffled(s, draw, k, n) == s
  {
  }

  /** The draws of rest, but j for the k-th. */
  function FirstDraw(k: nat, j: nat, rest: nat -> nat): nat -> nat {
    (m: nat) => if m == k then j else rest(m)
  }

  lemma FirstSwap(s: string, k: nat, n: nat, j: nat, rest: nat -> nat)
    requires j < n && 1 < n <= |s|
    ensures Shuffled(s, FirstDraw(k, j, rest), k, n) == Shuffled(Swap(s, n - 1, j), rest, k + 1, n - 1)
  {
    hide Swap;
    var draw := FirstDraw(k, j, rest);
    SameDraws(Swap(s, n - 1, j), draw, rest, k + 1, n - 1);
    assert draw(k) == j && j % n == j;
  }

  /** The shuffle leaves nothing out: some draws lead to every order of the characters. */
  lemma {:induction false} EveryOrderDrawn(s: string, t: string, k: nat, n: nat) returns (draw: nat -> nat)
    requires PlacedFrom(s, t, n)
    ensures n <= |s| && Shuffled(s, draw, k, n) == t
    decreases n
  {
    hide PlacedFrom, Swap, Shuffled;
    if n <= 1 {
      draw := m => 0;
      assert n <= |s| && Shuffled(s, draw, k, n) == s by { Short(s, t, draw, k, n); }
      AllPlaced(s, t, n);
    } else {
      var j := FindPlace(s, t, n);
      PlaceOne(s, t, n, j);
      var rest := EveryOrderDrawn(Swap(s, n - 1, j), t, k + 1, n - 1);
      draw := FirstDraw(k, j, rest);
      FirstSwap(s, k, n, j, rest);
    }
  }

  lemma BagSize(s: string, t: string)
    requires multiset(s) == multiset(t)
    ensures |s| == |t|
  {
    assert |multiset(s)| == |s| && |multiset(t)| == |t|;
  }

  /** Every class the policy requires occurs. */
  ghost predicate Covers(p: Policy, s: string) {
    && (p.requireUppercase ==> HasUpper(s)) && (p.requireLowercase ==> HasLower(s))
    && (p.requireDigit ==> HasDigit(s)) && (p.requireSpecial ==> HasSpecial(s))
  }

  lemma SameCharacters(s: string, t: string, c: char)
    requires multiset(s) == multiset(t)
    ensures c in s <==> c in t
  {
    assert c in s <==> c in multiset(s);
    assert c in t <==> c in multiset(t);
  }

  /** What a policy asks for does not depend on the order of the characters. */
  lemma CoversShuffled(p: Policy, s: string, t: string)
    requires multiset(s) == multiset(t)
    ensures |s| == |t| && (Covers(p, s) ==> Covers(p, t))
  {
    BagSize(s, t);
    forall i | 0 <= i < |s| ensures exists j :: 0 <= j < |t| && t[j] == s[i] {
      assert s[i] in s;
      SameCharacters(s, t, s[i]);
    }
  }

  lemma ClassMembers()
    ensures forall i :: 0 <= i < |UPPER| ==> 'A' <= UPPER[i] <= 'Z'
    ensures forall i :: 0 <= i < |LOWER| ==> 'a' <= LOWER[i] <= 'z'
    ensures forall i :: 0 <= i < |DIGITS| ==> '0' <= DIGITS[i] <= '9'
  {
  }

  lemma SpecialMembers(i: nat)
    requires i < |SPECIAL|
    ensures SPECIAL[i] in SPECIAL_CLASS
  {
  }

  /** Only characters of the policy's alphabet. */
  ghost predicate Drawn(p: Policy, s: string) {
    forall i :: 0 <= i < |s| ==> s[i] in Charset(p)
  }

  lemma InCharset(p: Policy, c: char)
    ensures p.requireUppercase && c in UPPER ==> c in Charset(p)
    ensures p.requireLowercase && c in LOWER ==> c in Charset(p)
    ensures p.requireDigit && c in DIGITS ==> c in Charset(p)
    ensures p.requireSpecial && c in SPECIAL ==> c in Charset(p)
  {
  }

  /** The filler loop; it gives up at the first failed read. */
  method Filler(p: Policy, draw: nat -> nat, fails: nat -> bool, n: nat) returns (r: Generated)
    ensures r.Failed? <==> exists k :: 0 <= k < n && fails(k)
    ensures !r.Panic?
    ensures r.Password? ==> |r.value| == n && Drawn(p, r.value)
    ensures r.Password? ==> forall k :: 0 <= k < n ==> r.value[k] == Charset(p)[draw(k) % |Charset(p)|]
  {
    hide Charset;
    var chars, password := Charset(p), "";
    for k := 0 to n
      invariant |password| == k && Drawn(p, password)
      invariant forall j :: 0 <= j < k ==> password[j] == chars[draw(j) % |chars|]
      invariant forall j :: 0 <= j < k ==> !fails(j)
    {
      if fails(k) {
        return Failed;
      }
      password := password + [chars[draw(k) % |chars|]];
    }
    return Password(password);
  }

  /** The required classes, in the order in which they are appended. */
  function Classes(p: Policy): (cs: seq<string>)
    ensures |cs| == Required(p) && forall i :: 0 <= i < |cs| ==> cs[i] != ""
  {
    (if p.requireUppercase then [UPPER] else []) + (if p.requireLowercase then [LOWER] else [])
    + (if p.requireDigit then [DIGITS] else []) + (if p.requireSpecial then [SPECIAL] else [])
  }

  /** password is filler with a drawn character of each class behind it. */
  ghost predicate Appended(filler: string, cs: seq<string>, draw: nat -> nat, fails: nat -> bool, password: string) {
    && |password| == |filler| + |cs| && password[..|filler|] == filler
    && forall i :: 0 <= i < |cs| ==> cs[i] != "" && password[|filler| + i] == Pick(cs[i], draw, fails, |filler| + i)
  }

  /** The character of a class that the k-th draw picks: the first one if the read fails. */
  function Pick(chars: string, draw: nat -> nat, fails: nat -> bool, k: nat): char
    requires chars != ""
  {
    if fails(k) then chars[0] else chars[draw(k) % |chars|]
  }

  lemma PickIs(chars: string, draw: nat -> nat, fails: nat -> bool, k: nat)
    requires chars != ""
    ensures Pick(chars, draw, fails, k) == chars[RandIndex(draw, fails, k, |chars|)]
    ensures Pick(chars, draw, fails, k) in chars
  {
  }

  lemma AppendNext(filler: string, cs: seq<string>, c: string, draw: nat -> nat, fails: nat -> bool, s: string)
    requires Appended(filler, cs, draw, fails, s) && c != ""
    ensures Appended(filler, cs + [c], draw, fails, s + [c[RandIndex(draw, fails, |s|, |c|)]])
  {
    PickIs(c, draw, fails, |s|);
    hide RandIndex, Pick;
    var t := s + [c[RandIndex(draw, fails, |s|, |c|)]];
    assert t[..|filler|] == s[..|filler|];
  }

  /** One character of every required class, appended in order; the number of a draw is that of its character. */
  method AppendRequired(p: Policy, draw: nat -> nat, fails: nat -> bool, filler: string) returns (password: string)
    requires Drawn(p, filler)
    ensures |password| == |filler| + Required(p) && Covers(p, password) && Drawn(p, password)
    ensures Appended(filler, Classes(p), draw, fails, password)
  {
    password := filler;
    assert Appended(filler, [], draw, fails, password);
    ghost var c1 := if p.requireUppercase then [UPPER] else [];
    ghost var c2 := c1 + if p.requireLowercase then [LOWER] else [];
    ghost var c3 := c2 + if p.requireDigit then [DIGITS] else [];
    ghost var c4 := c3 + if p.requireSpecial then [SPECIAL] else [];
    assert c4 == Classes(p);
    hide Charset, Drawn, HasUpper, HasLower, HasDigit, HasSpecial, Appended, RandIndex, Covers, Classes;
    if p.requireUppercase {
      AppendNext(filler, [], UPPER, draw, fails, password);
      assert [] + [UPPER] == c1;
      password := password + [UPPER[RandIndex(draw, fails, |password|, |UPPER|)]];
    }
    if p.requireLowercase {
      AppendNext(filler, c1, LOWER, draw, fails, password);
      password := password + [LOWER[RandIndex(draw, fails, |password|, |LOWER|)]];
    }
    assert Appended(filler, c2, draw, fails, password) by { assert c1 + [] == c1; }
    if p.requireDigit {
      AppendNext(filler, c2, DIGITS, draw, fails, password);
      password := password + [DIGITS[RandIndex(draw, fails, |password|, |DIGITS|)]];
    }
    assert Appended(filler, c3, draw, fails, password) by { assert c2 + [] == c2; }
    if p.requireSpecial {
      AppendNext(filler, c3, SPECIAL, draw, fails, password);
      password := password + [SPECIAL[RandIndex(draw, fails, |password|, |SPECIAL|)]];
    }
    assert Appended(filler, c4, draw, fails, password) by { assert c3 + [] == c3; }
    RequiredValid(p, draw, fails, filler, password);
  }

  /** With a character of each required class behind it, every filler satisfies the policy. */
  lemma RequiredValid(p: Policy, draw: nat -> nat, fails: nat -> bool, filler: string, s: string)
    requires Drawn(p, filler) && Appended(filler, Classes(p), draw, fails, s)
    ensures |s| == |filler| + Required(p) && Covers(p, s) && Drawn(p, s)
  {
    AppendedDrawn(p, draw, fails, filler, s);
    hide Charset, Classes, Drawn, Pick;
    RequiredClasses(p);
    hide HasUpper, HasLower, HasDigit, HasSpecial;
    if p.requireUppercase { ClassPresent(p, draw, fails, filler, s, UPPER); }
    if p.requireLowercase { ClassPresent(p, draw, fails, filler, s, LOWER); }
    if p.requireDigit { ClassPresent(p, draw, fails, filler, s, DIGITS); }
    if p.requireSpecial { ClassPresent(p, draw, fails, filler, s, SPECIAL); }
  }

  lemma AppendedDrawn(p: Policy, draw: nat -> nat, fails: nat -> bool, filler: string, s: string)
    requires Drawn(p, filler) && Appended(filler, Classes(p), draw, fails, s)
    ensures Drawn(p, s)
  {
    hide Charset, Classes, Pick;
    var n := |filler|;
    forall k | 0 <= k < |s| ensures s[k] in Charset(p) {
      if k < n {
        assert s[k] == s[..n][k] == filler[k];
      } else {
        PickIs(Classes(p)[k - n], draw, fails, k);
        assert s[k] == s[n + (k - n)];
        ClassInCharset(p, k - n, s[k]);
      }
    }
  }

  lemma RequiredClasses(p: Policy)
    ensures p.requireUppercase ==> UPPER in Classes(p)
    ensures p.requireLowercase ==> LOWER in Classes(p)
    ensures p.requireDigit ==> DIGITS in Classes(p)
    ensures p.requireSpecial ==> SPECIAL in Classes(p)
  {
  }

  lemma ClassInCharset(p: Policy, i: nat, c: char)
    requires i < |Classes(p)| && c in Classes(p)[i]
    ensures c in Charset(p)
  {
    InCharset(p, c);
    hide Charset;
  }

  lemma ClassPresent(p: Policy, draw: nat -> nat, fails: nat -> bool, filler: string, s: string, chars: string)
    requires Appended(filler, Classes(p), draw, fails, s) && chars in Classes(p)
    ensures chars == UPPER ==> HasUpper(s)
    ensures chars == LOWER ==> HasLower(s)
    ensures chars == DIGITS ==> HasDigit(s)
    ensures chars == SPECIAL ==> HasSpecial(s)
  {
    hide Classes;
    var i :| 0 <= i < |Classes(p)| && Classes(p)[i] == chars;
    var j := RandIndex(draw, fails, |filler| + i, |chars|);
    PickIs(chars, draw, fails, |filler| + i);
    assert s[|filler| + i] == chars[j];
    ClassMembers();
    if chars == SPECIAL {
      SpecialMembers(j);
    }
  }

  lemma DrawnShuffled(p: Policy, s: string, t: string)
    requires multiset(s) == multiset(t) && Drawn(p, s)
    ensures Drawn(p, t)
  {
    hide Charset;
    forall i | 0 <= i < |t| ensures t[i] in Charset(p) {
      assert t[i] in t;
      SameCharacters(s, t, t[i]);
    }
  }

  /** The characters before the shuffle: the filler from the whole alphabet, then one of each required class. */
  ghost predicate IsBase(p: Policy, draw: nat -> nat, fails: nat -> bool, base: string) {
    var n := Length(p) - Required(p);
    && |base| == Length(p) && Appended(base[..n], Classes(p), draw, fails, base)
    && forall k :: 0 <= k < n ==> base[k] == Charset(p)[draw(k) % |Charset(p)|]
  }

  /** The password that the draws make. */
  ghost predicate Makes(p: Policy, draw: nat -> nat, fails: nat -> bool, password: string) {
    exists base :: IsBase(p, draw, fails, base) && password == Shuffled(base, draw, Length(p), Length(p))
  }

  /**
   For every policy and every sequence of draws, the generated password is the one that the draws make, passes the
   same policy and uses only the policy's alphabet; generation fails exactly when a filler draw fails, and panics
   exactly when the filler is drawn and a draw of the shuffle fails.
   */
  method GenerateRandomPassword(p: Policy, draw: nat -> nat, fails: nat -> bool) returns (r: Generated)
    ensures r.Failed? <==> exists k :: 0 <= k < Length(p) - Required(p) && fails(k)
    ensures r.Panic? <==> !r.Failed? && exists k :: Length(p) <= k < 2 * Length(p) - 1 && fails(k)
    ensures r.Password? ==> Validate(p, r.value) == Accepted && |r.value| == Length(p) >= 12 && Drawn(p, r.value)
    ensures r.Password? ==> Makes(p, draw, fails, r.value)
  {
    hide HasUpper, HasLower, HasDigit, HasSpecial, Charset, Drawn, Appended, Classes;
    r := Filler(p, draw, fails, Length(p) - Required(p));
    if r.Failed? { return; }
    var s := AppendRequired(p, draw, fails, r.value);
    var a := new char[|s|](i requires 0 <= i < |s| => s[i]);
    assert a[..] == s;
    assert IsBase(p, draw, fails, s) by { BaseIs(p, draw, fails, r.value, s); }
    var ok := Shuffle(a, draw, fails, Length(p));
    if !ok { return Panic; }
    ShuffledKeeps(s, draw, Length(p), |s|);
    CoversShuffled(p, s, a[..]);
    DrawnShuffled(p, s, a[..]);
    r := Password(a[..]);
  }

  lemma BaseIs(p: Policy, draw: nat -> nat, fails: nat -> bool, filler: string, s: string)
    requires |filler| == Length(p) - Required(p) && Appended(filler, Classes(p), draw, fails, s)
    requires forall k :: 0 <= k < |filler| ==> filler[k] == Charset(p)[draw(k) % |Charset(p)|]
    ensures IsBase(p, draw, fails, s)
  {
    hide Charset, Classes, Pick;
    assert s[..|filler|] == filler;
    forall k | 0 <= k < |filler| ensures s[k] == filler[k] {
      assert s[k] == s[..|filler|][k];
    }
  }

  // ----- Exactly which passwords can be generated -----

  /** The characters that may stand at place k before the shuffle. */
  function AlphabetAt(p: Policy, k: nat): (chars: string)
    requires k < Length(p)
    ensures chars != ""
  {
    var n := Length(p) - Required(p);
    if k < n then Charset(p) else Classes(p)[k - n]
  }

  /** The place of a character in an alphabet. */
  function PlaceIn(chars: string, c: char): (i: nat)
    requires c in chars
    ensures i < |chars| && chars[i] == c
  {
    if chars[0] == c then 0 else 1 + PlaceIn(chars[1..], c)
  }

  /** Draws of the wanted characters at their places, and the given draws from there on. */
  function DrawsFor(p: Policy, base: string, rest: nat -> nat): nat -> nat
    requires |base| == Length(p) && forall k :: 0 <= k < |base| ==> base[k] in AlphabetAt(p, k)
  {
    (k: nat) => if k < |base| then PlaceIn(AlphabetAt(p, k), base[k]) else rest(k)
  }

  /** No read fails. */
  function Never(): nat -> bool {
    (k: nat) => false
  }

  lemma DrawsMakeBase(p: Policy, base: string, rest: nat -> nat)
    requires |base| == Length(p) && forall k :: 0 <= k < |base| ==> base[k] in AlphabetAt(p, k)
    ensures IsBase(p, DrawsFor(p, base, rest), Never(), base)
  {
    hide Charset, Classes, DrawsFor, AlphabetAt;
    var n, draw, fails := Length(p) - Required(p), DrawsFor(p, base, rest), Never();
    forall k | 0 <= k < n ensures base[k] == Charset(p)[draw(k) % |Charset(p)|] {
      DrawIs(p, base, rest, k);
      AlphabetIs(p, k);
    }
    forall i | 0 <= i < |Classes(p)|
      ensures base[n + i] == Pick(Classes(p)[i], draw, fails, n + i)
    {
      DrawIs(p, base, rest, n + i);
      AlphabetIs(p, n + i);
    }
  }

  lemma AlphabetIs(p: Policy, k: nat)
    requires k < Length(p)
    ensures var n := Length(p) - Required(p); AlphabetAt(p, k) == if k < n then Charset(p) else Classes(p)[k - n]
  {
  }

  lemma DrawIs(p: Policy, base: string, rest: nat -> nat, k: nat)
    requires |base| == Length(p) && (forall k :: 0 <= k < |base| ==> base[k] in AlphabetAt(p, k)) && k < |base|
    ensures var chars, i := AlphabetAt(p, k), DrawsFor(p, base, rest)(k);
            i % |chars| == i < |chars| && chars[i] == base[k]
  {
    hide AlphabetAt, PlaceIn;
    SmallMod(PlaceIn(AlphabetAt(p, k), base[k]), |AlphabetAt(p, k)|);
  }

  lemma SmallMod(i: nat, n: nat)
    requires i < n
    ensures i % n == i
  {
  }

  lemma TakeOut(t: string, c: char) returns (rest: string)
    requires c in t
    ensures multiset(t) == multiset(rest) + multiset{c} && forall x :: x in rest ==> x in t
  {
    var i :| 0 <= i < |t| && t[i] == c;
    rest := t[..i] + t[i + 1..];
    assert t == t[..i] + [c] + t[i + 1..];
  }

  ghost predicate Meets(chars: string, t: string) {
    exists k :: 0 <= k < |t| && t[k] in chars
  }

  /** Without a character of another class the class is still met. */
  lemma StillMeets(t: string, rest: string, c: char, chars: string)
    requires Meets(chars, t) && c !in chars && multiset(t) == multiset(rest) + multiset{c}
    ensures Meets(chars, rest)
  {
    var k :| 0 <= k < |t| && t[k] in chars;
    assert t[k] in multiset(t) && t[k] != c;
    assert t[k] in multiset(rest);
    var l :| 0 <= l < |rest| && rest[l] == t[k];
  }

  /** Characters of t, one of each class, and the rest of t; the classes have no character in common. */
  lemma {:induction false} PickAll(t: string, cs: seq<string>) returns (rest: string, picked: string)
    requires forall i :: 0 <= i < |cs| ==> Meets(cs[i], t)
    requires forall i, j, c :: 0 <= i < j < |cs| && c in cs[i] ==> c !in cs[j]
    ensures multiset(t) == multiset(rest) + multiset(picked) && |picked| == |cs|
    ensures forall i :: 0 <= i < |cs| ==> picked[i] in cs[i]
    ensures forall x :: x in rest ==> x in t
    decreases |cs|
  {
    rest, picked := t, "";
    if cs != [] {
      var m := |cs| - 1;
      assert Meets(cs[m], t);
      var k :| 0 <= k < |t| && t[k] in cs[m];
      var c, cs' := t[k], cs[..m];
      var t' := TakeOut(t, c);
      forall i | 0 <= i < m ensures cs'[i] == cs[i] && Meets(cs'[i], t') {
        StillMeets(t, t', c, cs[i]);
      }
      var rest', picked' := PickAll(t', cs');
      rest, picked := rest', picked' + [c];
    }
  }

  lemma NotAlphanumeric()
    ensures forall i :: 0 <= i < |SPECIAL| ==> !Alphanumeric(SPECIAL[i])
    ensures forall i :: 0 <= i < |SPECIAL_CLASS| ==> !Alphanumeric(SPECIAL_CLASS[i])
  {
  }

  predicate Alphanumeric(c: char) {
    'A' <= c <= 'Z' || 'a' <= c <= 'z' || '0' <= c <= '9'
  }

  /** What the classes are made of. */
  lemma KindOf(c: char)
    ensures c in UPPER ==> 'A' <= c <= 'Z'
    ensures c in LOWER ==> 'a' <= c <= 'z'
    ensures c in DIGITS ==> '0' <= c <= '9'
    ensures c in SPECIAL || c in SPECIAL_CLASS ==> !Alphanumeric(c)
  {
    ClassMembers();
    NotAlphanumeric();
  }

  lemma ClassesDisjoint(p: Policy, i: nat, j: nat, c: char)
    requires i < j < |Classes(p)| && c in Classes(p)[i]
    ensures c !in Classes(p)[j]
  {
    KindOf(c);
  }

  /** A character of the alphabet that counts for a required class belongs to that class. */
  lemma ClassOf(p: Policy, c: char)
    requires c in Charset(p)
    ensures p.requireUppercase && 'A' <= c <= 'Z' ==> c in UPPER
    ensures p.requireLowercase && 'a' <= c <= 'z' ==> c in LOWER
    ensures p.requireDigit && '0' <= c <= '9' ==> c in DIGITS
    ensures p.requireSpecial && c in SPECIAL_CLASS ==> c in SPECIAL
  {
    KindOf(c);
  }

  /** A string that satisfies the policy has a character of each required class. */
  lemma ClassesMet(p: Policy, t: string, i: nat)
    requires Drawn(p, t) && Covers(p, t) && i < |Classes(p)|
    ensures Meets(Classes(p)[i], t)
  {
    hide Charset;
    forall k | 0 <= k < |t|
      ensures p.requireUppercase && 'A' <= t[k] <= 'Z' ==> t[k] in UPPER
      ensures p.requireLowercase && 'a' <= t[k] <= 'z' ==> t[k] in LOWER
      ensures p.requireDigit && '0' <= t[k] <= '9' ==> t[k] in DIGITS
      ensures p.requireSpecial && t[k] in SPECIAL_CLASS ==> t[k] in SPECIAL
    {
      ClassOf(p, t[k]);
    }
    assert p.requireUppercase ==> Meets(UPPER, t);
    assert p.requireLowercase ==> Meets(LOWER, t);
    assert p.requireDigit ==> Meets(DIGITS, t);
    assert p.requireSpecial ==> Meets(SPECIAL, t);
    hide Meets, HasUpper, HasLower, HasDigit, HasSpecial;
  }

  /** An order of the characters in which they can be drawn. */
  lemma FindBase(p: Policy, t: string) returns (base: string)
    requires |t| == Length(p) && Drawn(p, t) && Covers(p, t)
    ensures multiset(base) == multiset(t) && |base| == Length(p)
    ensures forall k :: 0 <= k < |base| ==> base[k] in AlphabetAt(p, k)
  {
    hide Charset, Classes, Covers, AlphabetAt, Meets;
    forall i | 0 <= i < |Classes(p)| ensures Meets(Classes(p)[i], t) {
      ClassesMet(p, t, i);
    }
    forall i, j, c | 0 <= i < j < |Classes(p)| && c in Classes(p)[i] ensures c !in Classes(p)[j] {
      ClassesDisjoint(p, i, j, c);
    }
    var rest, picked := PickAll(t, Classes(p));
    base := rest + picked;
    BagSize(base, t);
    hide Drawn;
    forall k | 0 <= k < |base| ensures base[k] in AlphabetAt(p, k) {
      AlphabetIs(p, k);
      if k < |rest| {
        assert rest[k] in rest;
        DrawnMember(p, t, base[k]);
      } else {
        assert base[k] == picked[k - |rest|];
      }
    }
  }

  lemma DrawnMember(p: Policy, t: string, c: char)
    requires Drawn(p, t) && c in t
    ensures c in Charset(p)
  {
    hide Charset;
  }

  /**
   The passwords that can be generated are exactly the strings of the right length over the policy's alphabet in
   which every required class occurs.
   */
  lemma GeneratedExact(p: Policy, t: string)
    ensures (exists draw: nat -> nat, fails: nat -> bool :: Makes(p, draw, fails, t))
       <==> |t| == Length(p) && Drawn(p, t) && Covers(p, t)
  {
    hide Drawn, Covers;
    if draw: nat -> nat, fails: nat -> bool :| Makes(p, draw, fails, t) {
      MadeIsValid(p, draw, fails, t);
    }
    if |t| == Length(p) && Drawn(p, t) && Covers(p, t) {
      var draw := DrawsOf(p, t);
    }
  }

  lemma MadeIsValid(p: Policy, draw: nat -> nat, fails: nat -> bool, t: string)
    requires Makes(p, draw, fails, t)
    ensures |t| == Length(p) && Drawn(p, t) && Covers(p, t)
  {
    var base :| IsBase(p, draw, fails, base) && t == Shuffled(base, draw, Length(p), Length(p));
    var n := Length(p) - Required(p);
    assert Drawn(p, base[..n]) by {
      hide Charset, Classes, Appended;
    }
    hide Charset, Classes, Drawn, Covers, Shuffled, Appended;
    RequiredValid(p, draw, fails, base[..n], base);
    ShuffledKeeps(base, draw, Length(p), Length(p));
    CoversShuffled(p, base, t);
    DrawnShuffled(p, base, t);
  }

  lemma DrawsOf(p: Policy, t: string) returns (draw: nat -> nat)
    requires |t| == Length(p) && Drawn(p, t) && Covers(p, t)
    ensures Makes(p, draw, Never(), t)
  {
    hide Charset, Classes, Drawn, Covers, AlphabetAt, Shuffled, DrawsFor, IsBase;
    var base := FindBase(p, t);
    var n := Length(p);
    assert base[n..] == t[n..];
    var rest := EveryOrderDrawn(base, t, n, n);
    draw := DrawsFor(p, base, rest);
    DrawsMakeBase(p, base, rest);
    DrawsAfter(p, base, rest);
    SameDraws(base, draw, rest, n, n);
  }

  lemma DrawsAfter(p: Policy, base: string, rest: nat -> nat)
    requires |base| == Length(p) && forall k :: 0 <= k < |base| ==> base[k] in AlphabetAt(p, k)
    ensures forall m :: m >= Length(p) ==> DrawsFor(p, base, rest)(m) == rest(m)
  {
    hide AlphabetAt;
  }

  // ----- What is accepted -----

  /** Validate accepts exactly the passwords that are long enough and have every required kind of character. */
  lemma ValidateExact(p: Policy, password: string)
    ensures Validate(p, password) == Accepted <==>
              && |password| >= p.minLength
              && (p.requireUppercase ==> exists c :: c in password && 'A' <= c <= 'Z')
              && (p.requireLowercase ==> exists c :: c in password && 'a' <= c <= 'z')
              && (p.requireDigit ==> exists c :: c in password && '0' <= c <= '9')
              && (p.requireSpecial ==> exists c :: c in password && c in SPECIAL_CLASS)
    ensures Validate(p, password) == TooShort <==> |password| < p.minLength
    ensures Length(p) == if p.minLength < 12 then 12 else p.minLength
  {
    KindsByMember(password);
    hide HasUpper, HasLower, HasDigit, HasSpecial;
  }

  lemma KindsByMember(s: string)
    ensures HasUpper(s) <==> exists c :: c in s && 'A' <= c <= 'Z'
    ensures HasLower(s) <==> exists c :: c in s && 'a' <= c <= 'z'
    ensures HasDigit(s) <==> exists c :: c in s && '0' <= c <= '9'
    ensures HasSpecial(s) <==> exists c :: c in s && c in SPECIAL_CLASS
  {
    assert forall i :: 0 <= i < |s| ==> s[i] in s;
  }

  /** The alphabet of a policy: its required classes, or lower-case letters and digits if there are none. */
  lemma CharsetExact(p: Policy, c: char)
    ensures var upper, lower, digit := 'A' <= c <= 'Z', 'a' <= c <= 'z', '0' <= c <= '9';
            c in Charset(p) <==>
              if Required(p) == 0 then lower || digit
              else (p.requireUppercase && upper) || (p.requireLowercase && lower) || (p.requireDigit && digit)
                   || (p.requireSpecial && c in SPECIAL)
  {
    KindOf(c);
    ClassesComplete(c);
  }

  lemma ClassesComplete(c: char)
    ensures 'A' <= c <= 'Z' ==> c in UPPER
    ensures 'a' <= c <= 'z' ==> c in LOWER
    ensures '0' <= c <= '9' ==> c in DIGITS
  {
    Consecutive();
    var u, l, d := c as int - 'A' as int, c as int - 'a' as int, c as int - '0' as int;
    assert 'A' <= c <= 'Z' ==> UPPER[u] as int == 'A' as int + u && UPPER[u] == c;
    assert 'a' <= c <= 'z' ==> LOWER[l] as int == 'a' as int + l && LOWER[l] == c;
    assert '0' <= c <= '9' ==> DIGITS[d] as int == '0' as int + d && DIGITS[d] == c;
  }

  lemma Consecutive()
    ensures |UPPER| == 26 && forall i :: 0 <= i < 26 ==> UPPER[i] as int == 'A' as int + i
    ensures |LOWER| == 26 && forall i :: 0 <= i < 26 ==> LOWER[i] as int == 'a' as int + i
    ensures |DIGITS| == 10 && forall i :: 0 <= i < 10 ==> DIGITS[i] as int == '0' as int + i
  {
  }
}
