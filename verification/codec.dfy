/**
 * The feedback codec of the Wordle solver.
 *
 * A feedback is one mark per letter position: '2' (right letter, right
 * place), '1' (letter present elsewhere) or '0' (absent).  It is packed into
 * a feedback code, the base-3 number in which position i contributes
 * digit * 3^i, so a 5-letter feedback is a code in [0, 243) and "22222" is
 * 242, the solved code.
 *
 * Marks gives the marking declaratively (the usual Wordle rule for repeated
 * letters); EncodeQuery is the two-pass marking the solver runs on small
 * arrays and is proved to compute it.  EncodeString packs a typed result
 * string in the original's 16-bit accumulator, reduced modulo 2^16.
 */
module Codec {

  /** Word length. */
  const Len: nat := 5
  /** Number of feedback codes, 3^Len. */
  const Codes: nat := 243
  /** The all-green code, the packing of "22222". */
  const SolvedCode: nat := 242
  /** The accumulators are 16-bit unsigned integers. */
  const Uint16: nat := 0x1_0000

  // ---------------------------------------------------------------------
  // Declarative marking
  // ---------------------------------------------------------------------

  /** Positions j < m of the solution that are not yet `used` and hold c. */
  function FreeCount(sol: string, used: seq<bool>, c: char, m: nat): nat
    requires m <= |sol| && m <= |used|
  {
    if m == 0 then 0
    else FreeCount(sol, used, c, m - 1) + (if !used[m - 1] && sol[m - 1] == c then 1 else 0)
  }

  /** The solution positions a green match consumes. */
  function GreenMask(g: string, sol: string): seq<bool>
    requires |g| == |sol|
  {
    seq(|g|, j requires 0 <= j < |g| => g[j] == sol[j])
  }

  /** Copies of c in the solution that are left over once the greens are taken. */
  function Spare(g: string, sol: string, c: char): nat
    requires |g| == |sol|
  {
    FreeCount(sol, GreenMask(g, sol), c, |sol|)
  }

  /** Non-green guess positions k < m holding the letter c. */
  function Earlier(g: string, sol: string, c: char, m: nat): nat
    requires |g| == |sol| && m <= |g|
  {
    if m == 0 then 0
    else Earlier(g, sol, c, m - 1) + (if g[m - 1] == c && g[m - 1] != sol[m - 1] then 1 else 0)
  }

  /**
   * The mark of guess position i: green when the letters agree; otherwise
   * yellow when fewer earlier non-green copies of the same letter exist than
   * spare copies of it in the solution; otherwise absent.
   */
  function Mark(g: string, sol: string, i: nat): char
    requires |g| == |sol| && i < |g|
  {
    if g[i] == sol[i] then '2'
    else if Earlier(g, sol, g[i], i) < Spare(g, sol, g[i]) then '1'
    else '0'
  }

  predicate IsDigits(s: string)
  {
    forall i :: 0 <= i < |s| ==> '0' <= s[i] <= '2'
  }

  /** The feedback of guess g against solution sol, one mark per position. */
  function Marks(g: string, sol: string): (r: string)
    requires |g| == |sol|
    ensures |r| == |g| && IsDigits(r)
    ensures forall i :: 0 <= i < |g| ==> (r[i] == '2' <==> g[i] == sol[i])
  {
    seq(|g|, i requires 0 <= i < |g| => Mark(g, sol, i))
  }

  // ---------------------------------------------------------------------
  // Packing and rendering
  // ---------------------------------------------------------------------

  function Pow3(k: nat): nat
  {
    if k == 0 then 1 else 3 * Pow3(k - 1)
  }

  /** The numeric value of a digit character. */
  function Digit(ch: char): int
  {
    ch as int - '0' as int
  }

  /** The sum of Digit(s[i]) * 3^i over all positions i. */
  function Pack(s: string): int
  {
    if s == [] then 0 else Pack(s[..|s| - 1]) + Digit(s[|s| - 1]) * Pow3(|s| - 1)
  }

  /** The feedback code of guess g against solution sol. */
  function Code(g: string, sol: string): int
    requires |g| == |sol|
  {
    Pack(Marks(g, sol))
  }

  function DigitChar(d: nat): char
    requires d < 3
  {
    ('0' as int + d) as char
  }

  /** The m-character result string of a code, position 0 first. */
  function Render(code: nat, m: nat): (s: string)
    ensures |s| == m && IsDigits(s)
  {
    if m == 0 then [] else [DigitChar(code % 3)] + Render(code / 3, m - 1)
  }

  // ---------------------------------------------------------------------
  // Lemmas about packing
  // ---------------------------------------------------------------------

  lemma Pow3Len()
    ensures Pow3(Len) == Codes
  {
  }

  /** Packing peels off position 0 as the least significant digit. */
  lemma {:induction false} PackFront(s: string)
    requires |s| > 0
    ensures Pack(s) == Digit(s[0]) + 3 * Pack(s[1..])
  {
    if |s| > 1 {
      var t := s[..|s| - 1];
      PackFront(t);
      assert t[1..] == s[1..][..|s[1..]| - 1];
      assert t[0] == s[0];
    } else {
      assert s[1..] == [];
      assert s[..0] == [];
    }
  }

  /** A digit string of length m packs into [0, 3^m). */
  lemma {:induction false} PackRange(s: string)
    requires IsDigits(s)
    ensures 0 <= Pack(s) < Pow3(|s|)
  {
    if s != [] {
      var t := s[..|s| - 1];
      assert IsDigits(t);
      PackRange(t);
      var d := Digit(s[|s| - 1]);
      assert 0 <= d <= 2;
      assert d * Pow3(|t|) <= 2 * Pow3(|t|);
    }
  }

  /** Rendering a code and packing it back gives the code. */
  lemma {:induction false} PackRender(code: nat, m: nat)
    requires code < Pow3(m)
    ensures Pack(Render(code, m)) == code
  {
    if m > 0 {
      var s := Render(code, m);
      PackFront(s);
      assert s[1..] == Render(code / 3, m - 1);
      PackRender(code / 3, m - 1);
      assert Digit(s[0]) == code % 3;
    }
  }

  /** Packing a digit string and rendering it back gives the string. */
  lemma {:induction false} RenderPack(s: string)
    requires IsDigits(s)
    ensures Pack(s) >= 0 && Render(Pack(s), |s|) == s
  {
    PackRange(s);
    if s != [] {
      PackFront(s);
      var rest := s[1..];
      assert IsDigits(rest);
      PackRange(rest);
      RenderPack(rest);
      var d := Digit(s[0]);
      assert 0 <= d < 3;
      assert Pack(s) % 3 == d && Pack(s) / 3 == Pack(rest);
      assert DigitChar(d) == s[0];
    }
  }

  /** One more digit of a five-digit string stays within the 16-bit range. */
  lemma PackStep(s: string, i: nat)
    requires IsDigits(s) && i < |s| == Len
    ensures Pack(s[..i + 1]) == Pack(s[..i]) + Digit(s[i]) * Pow3(i)
    ensures 0 <= Pack(s[..i + 1]) < Pow3(i + 1) <= Codes
    ensures Pow3(i) * 3 < Uint16
  {
    assert s[..i + 1][..i] == s[..i];
    assert IsDigits(s[..i + 1]);
    PackRange(s[..i + 1]);
    assert Pow3(1) == 3 && Pow3(2) == 9 && Pow3(3) == 27 && Pow3(4) == 81 && Pow3(5) == 243;
  }

  /** "22222" packs to the solved code. */
  lemma SolvedString()
    ensures Pack("22222") == SolvedCode
  {
    assert Pow3(1) == 3 && Pow3(2) == 9 && Pow3(3) == 27 && Pow3(4) == 81;
    assert "2"[..0] == "" && Pack("2") == 2;
    assert "22"[..1] == "2" && Pack("22") == 8;
    assert "222"[..2] == "22" && Pack("222") == 26;
    assert "2222"[..3] == "222" && Pack("2222") == 80;
    assert "22222"[..4] == "2222";
  }

  // ---------------------------------------------------------------------
  // Lemmas about the marking rule
  // ---------------------------------------------------------------------

  /** Non-green guess positions before m whose letter c got a '1'. */
  function Yellows(g: string, sol: string, c: char, m: nat): nat
    requires |g| == |sol| && m <= |g|
  {
    if m == 0 then 0
    else Yellows(g, sol, c, m - 1) + (if g[m - 1] == c && Mark(g, sol, m - 1) == '1' then 1 else 0)
  }

  /** Guess positions before m holding c that are green in both words. */
  function Greens(g: string, sol: string, c: char, m: nat): nat
    requires |g| == |sol| && m <= |g|
  {
    if m == 0 then 0
    else Greens(g, sol, c, m - 1) + (if g[m - 1] == c && sol[m - 1] == c then 1 else 0)
  }

  /** Guess positions before m holding c that got a '1' or a '2'. */
  function Credited(g: string, sol: string, c: char, m: nat): nat
    requires |g| == |sol| && m <= |g|
  {
    if m == 0 then 0
    else Credited(g, sol, c, m - 1) + (if g[m - 1] == c && Mark(g, sol, m - 1) != '0' then 1 else 0)
  }

  /** The yellows for c so far are the spare copies of c, handed out left to right. */
  lemma {:induction false} YellowsAreCapped(g: string, sol: string, c: char, m: nat)
    requires |g| == |sol| && m <= |g|
    ensures Yellows(g, sol, c, m) == if Earlier(g, sol, c, m) < Spare(g, sol, c) then Earlier(g, sol, c, m) else Spare(g, sol, c)
  {
    if m > 0 {
      YellowsAreCapped(g, sol, c, m - 1);
    }
  }

  lemma {:induction false} GuessCount(g: string, sol: string, c: char, m: nat)
    requires |g| == |sol| && m <= |g|
    ensures multiset(g[..m])[c] == Greens(g, sol, c, m) + Earlier(g, sol, c, m)
  {
    if m > 0 {
      GuessCount(g, sol, c, m - 1);
      assert g[..m] == g[..m - 1] + [g[m - 1]];
    }
  }

  lemma {:induction false} SolutionCount(g: string, sol: string, c: char, m: nat)
    requires |g| == |sol| && m <= |g|
    ensures multiset(sol[..m])[c] == Greens(g, sol, c, m) + FreeCount(sol, GreenMask(g, sol), c, m)
  {
    if m > 0 {
      SolutionCount(g, sol, c, m - 1);
      assert sol[..m] == sol[..m - 1] + [sol[m - 1]];
    }
  }

  lemma {:induction false} CreditedSplit(g: string, sol: string, c: char, m: nat)
    requires |g| == |sol| && m <= |g|
    ensures Credited(g, sol, c, m) == Greens(g, sol, c, m) + Yellows(g, sol, c, m)
  {
    if m > 0 {
      CreditedSplit(g, sol, c, m - 1);
    }
  }

  /**
   * The consume-once rule: for every letter c, the guess positions holding c
   * that receive a '1' or a '2' number the smaller of the copies of c in the
   * guess and in the solution.
   */
  lemma CountRule(g: string, sol: string, c: char)
    requires |g| == |sol|
    ensures var inG := multiset(g)[c]; var inSol := multiset(sol)[c];
            Credited(g, sol, c, |g|) == if inG < inSol then inG else inSol
  {
    GuessCount(g, sol, c, |g|);
    SolutionCount(g, sol, c, |g|);
    CreditedSplit(g, sol, c, |g|);
    YellowsAreCapped(g, sol, c, |g|);
    assert g[..|g|] == g && sol[..|g|] == sol;
  }

  lemma {:induction false} FreeCountWitness(sol: string, used: seq<bool>, c: char, m: nat)
    requires m <= |sol| && m <= |used|
    ensures FreeCount(sol, used, c, m) > 0 <==> exists j :: 0 <= j < m && !used[j] && sol[j] == c
  {
    if m > 0 {
      FreeCountWitness(sol, used, c, m - 1);
    }
  }

  /** A '1' is given only at a non-green position whose letter sits at a non-green solution position. */
  lemma YellowNeedsLetter(g: string, sol: string, i: nat)
    requires |g| == |sol| && i < |g|
    requires Marks(g, sol)[i] == '1'
    ensures g[i] != sol[i]
    ensures exists j :: 0 <= j < |sol| && sol[j] == g[i] && g[j] != sol[j]
  {
    FreeCountWitness(sol, GreenMask(g, sol), g[i], |sol|);
  }

  lemma {:induction false} EarlierGrows(g: string, sol: string, c: char, i: nat, j: nat)
    requires |g| == |sol| && i < j <= |g|
    requires g[i] == c && g[i] != sol[i]
    ensures Earlier(g, sol, c, i) < Earlier(g, sol, c, j)
  {
    if j > i + 1 {
      EarlierGrows(g, sol, c, i, j - 1);
    }
  }

  /** Among non-green copies of one letter, the leftmost receive the '1's first. */
  lemma LeftmostFirst(g: string, sol: string, i: nat, j: nat)
    requires |g| == |sol| && i < j < |g|
    requires g[i] == g[j] && g[i] != sol[i] && g[j] != sol[j]
    ensures Marks(g, sol)[j] == '1' ==> Marks(g, sol)[i] == '1'
  {
    EarlierGrows(g, sol, g[i], i, j);
  }

  /**
   * A non-green position is marked '0' exactly when the earlier copies of its
   * letter have already been given every spare copy of it in the solution.
   */
  lemma AbsentMeansExhausted(g: string, sol: string, i: nat)
    requires |g| == |sol| && i < |g| && g[i] != sol[i]
    ensures Marks(g, sol)[i] == '0' <==> Yellows(g, sol, g[i], i) == Spare(g, sol, g[i])
  {
    YellowsAreCapped(g, sol, g[i], i);
  }

  /** Any word guessed against itself is all green: the solved code. */
  lemma SelfIsSolved(w: string)
    requires |w| == Len
    ensures Marks(w, w) == "22222"
    ensures Code(w, w) == SolvedCode
  {
    assert Marks(w, w) == "22222";
    SolvedString();
  }

  /** Every feedback code is below 243 and renders back to the feedback itself. */
  lemma CodeRoundTrip(g: string, sol: string)
    requires |g| == Len && |sol| == Len
    ensures 0 <= Code(g, sol) < Codes
    ensures Render(Code(g, sol), Len) == Marks(g, sol)
    ensures Pack(Render(Code(g, sol), Len)) % Uint16 == Code(g, sol)
  {
    PackRange(Marks(g, sol));
    Pow3Len();
    RenderPack(Marks(g, sol));
  }

  // ---------------------------------------------------------------------
  // The encoders as the solver runs them
  // ---------------------------------------------------------------------

  /** Euclidean division has a unique quotient and remainder. */
  lemma ModUnique(a: int, m: int, q: int, r: int)
    requires m > 0 && 0 <= r < m && a == q * m + r
    ensures a / m == q && a % m == r
  {
    var d := q - a / m;
    assert d * m == a % m - r;
  }

  lemma ModAdd(a: int, b: int, m: int)
    requires m > 0
    ensures (a % m + b) % m == (a + b) % m
  {
    var x := a % m + b;
    assert a == (a / m) * m + a % m;
    assert x == (x / m) * m + x % m;
    assert a + b == (a / m + x / m) * m + x % m;
    ModUnique(a + b, m, a / m + x / m, x % m);
  }

  /**
   * Packs the first five characters of a result string.  The characters are
   * not checked to be digits, as in the original.  The sum is kept modulo
   * 2^16, so it wraps around only when it leaves [0, 2^16): when a character
   * below '0' makes it negative, or a character far above '2' makes it too
   * large.
   */
  method EncodeString(s: string) returns (code: int)
    requires |s| >= Len
    ensures code == Pack(s[..Len]) % Uint16
    ensures IsDigits(s[..Len]) ==> code == Pack(s[..Len]) && 0 <= code < Codes
  {
    code := 0;
    var pow3 := 1;
    for i := 0 to Len
      invariant pow3 == Pow3(i)
      invariant code == Pack(s[..i]) % Uint16
    {
      assert s[..i + 1][..i] == s[..i];
      ModAdd(Pack(s[..i]), Digit(s[i]) * pow3, Uint16);
      code := (code + Digit(s[i]) * pow3) % Uint16;
      pow3 := (pow3 * 3) % Uint16;
    }
    if IsDigits(s[..Len]) {
      PackRange(s[..Len]);
      Pow3Len();
    }
  }

  /**
   * Wordle feedback of guess g against solution sol: a green pass, then a
   * yellow pass in which each non-green guess position takes the leftmost
   * unused solution position holding its letter, then base-3 packing.
   */
  method EncodeQuery(g: string, sol: string) returns (code: int)
    requires |g| == Len && |sol| == Len
    ensures code == Code(g, sol)
    ensures 0 <= code < Codes
  {
    var res := new char[Len](_ => '0');
    var used := new bool[Len](_ => false);

    // greens
    for i := 0 to Len
      invariant forall k :: 0 <= k < i ==> res[k] == (if g[k] == sol[k] then '2' else '0')
      invariant forall k :: i <= k < Len ==> res[k] == '0'
      invariant forall k :: 0 <= k < i ==> used[k] == (g[k] == sol[k])
      invariant forall k :: i <= k < Len ==> !used[k]
    {
      if g[i] == sol[i] {
        res[i] := '2';
        used[i] := true;
      }
    }
    assert used[..] == GreenMask(g, sol);

    MarkYellows(g, sol, res, used);

    code := PackResult(res);
  }

  /** The base-3 packing of the marks array, in the 16-bit accumulator. */
  method PackResult(res: array<char>) returns (code: int)
    requires res.Length == Len && IsDigits(res[..])
    ensures 0 <= code == Pack(res[..]) < Codes
  {
    code := 0;
    var pow3 := 1;
    for i := 0 to Len
      invariant pow3 == Pow3(i)
      invariant 0 <= code == Pack(res[..i]) < Pow3(i)
    {
      PackStep(res[..], i);
      code := (code + Digit(res[i]) * pow3) % Uint16;
      pow3 := (pow3 * 3) % Uint16;
    }
    assert res[..Len] == res[..];
  }

  /**
   * The yellow pass of EncodeQuery: each non-green guess position takes the
   * leftmost unused solution position holding its letter, if any.
   */
  method MarkYellows(g: string, sol: string, res: array<char>, used: array<bool>)
    requires |g| == Len && |sol| == Len && res.Length == Len && used.Length == Len
    requires forall k :: 0 <= k < Len ==> res[k] == (if g[k] == sol[k] then '2' else '0')
    requires used[..] == GreenMask(g, sol)
    modifies res, used
    ensures res[..] == Marks(g, sol)
  {
    for i := 0 to Len
      invariant forall k :: 0 <= k < i ==> res[k] == Mark(g, sol, k)
      invariant forall k :: i <= k < Len ==> res[k] == (if g[k] == sol[k] then '2' else '0')
      invariant Unclaimed(g, sol, used[..], i)
    {
      if res[i] == '2' {
        continue;
      }
      ghost var before := used[..];
      for j := 0 to Len
        invariant used[..] == before && res[i] == '0'
        invariant forall k :: 0 <= k < j ==> before[k] || sol[k] != g[i]
      {
        if !used[j] && g[i] == sol[j] {
          YellowFound(g, sol, before, i, j);
          res[i] := '1';
          used[j] := true;
          assert used[..] == before[j := true];
          break;
        }
      }
      if res[i] == '0' {
        YellowNotFound(g, sol, before, i);
      }
    }
    assert res[..] == Marks(g, sol);
  }

  /**
   * The state of the yellow pass before guess position i: the solution
   * positions still unused hold, for every letter, the spare copies not yet
   * handed out as yellows.
   */
  ghost predicate Unclaimed(g: string, sol: string, used: seq<bool>, i: nat)
    requires |g| == Len && |sol| == Len && |used| == Len && i <= Len
  {
    forall c :: FreeCount(sol, used, c, Len) + Yellows(g, sol, c, i) == Spare(g, sol, c)
  }

  /** The pass finds an unused solution position j for a non-green guess position i: a yellow. */
  lemma YellowFound(g: string, sol: string, used: seq<bool>, i: nat, j: nat)
    requires |g| == Len && |sol| == Len && |used| == Len && i < Len && j < Len
    requires g[i] != sol[i] && !used[j] && sol[j] == g[i]
    requires Unclaimed(g, sol, used, i)
    ensures Mark(g, sol, i) == '1'
    ensures Unclaimed(g, sol, used[j := true], i + 1)
  {
    FreeCountWitness(sol, used, g[i], Len);
    YellowsAreCapped(g, sol, g[i], i);
    FreeCountClear(sol, used, j, Len);
  }

  /** No unused solution position holds the letter of non-green position i: absent. */
  lemma YellowNotFound(g: string, sol: string, used: seq<bool>, i: nat)
    requires |g| == Len && |sol| == Len && |used| == Len && i < Len
    requires g[i] != sol[i] && forall k :: 0 <= k < Len ==> used[k] || sol[k] != g[i]
    requires Unclaimed(g, sol, used, i)
    ensures Mark(g, sol, i) == '0'
    ensures Unclaimed(g, sol, used, i + 1)
  {
    FreeCountWitness(sol, used, g[i], Len);
    YellowsAreCapped(g, sol, g[i], i);
  }

  lemma {:induction false} FreeCountClear(sol: string, used: seq<bool>, j: nat, m: nat)
    requires m <= |sol| && m <= |used| && j < |used| && !used[j]
    ensures forall c :: FreeCount(sol, used[j := true], c, m)
                        == FreeCount(sol, used, c, m) - (if j < m && sol[j] == c then 1 else 0)
  {
    if m > 0 {
      FreeCountClear(sol, used, j, m - 1);
    }
  }
}
