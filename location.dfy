/**
 The location syntax accepted by the weather.gov backend.

 `Fetch` checks the user's location string against the anchored pattern
 `^-?[0-9]*(\.[0-9]+)?,-?[0-9]*(\.[0-9]+)?$`: two coordinate halves joined by a
 single comma, each an optional `-`, zero or more ASCII digits and an optional
 fraction made of a `.` and at least one digit.

 This module gives the pattern twice: as an executable recogniser (a small
 automaton run over each half, the halves found by splitting at the comma) and
 as a ghost grammar that states the decomposition outright. The two are proved
 to accept the same strings, and the shape of the accepted strings is then
 stated character by character.
 */
module LocationSyntax {

  /** `[0-9]`: an ASCII decimal digit. */
  predicate IsDigit(c: char) {
    '0' <= c <= '9'
  }

  predicate AllDigits(s: string) {
    forall i :: 0 <= i < |s| ==> IsDigit(s[i])
  }

  // ---------------------------------------------------------------------------
  // Reference grammar
  // ---------------------------------------------------------------------------

  /** `-?` */
  ghost predicate OptSign(p: string) {
    p == [] || p == "-"
  }

  /** `(\.[0-9]+)?` */
  ghost predicate OptFraction(f: string) {
    f == [] || (|f| >= 2 && f[0] == '.' && AllDigits(f[1..]))
  }

  /** `-?[0-9]*(\.[0-9]+)?`, matched against the whole of `h`. */
  ghost predicate HalfGrammar(h: string) {
    exists i, j :: 0 <= i <= j <= |h| && OptSign(h[..i]) && AllDigits(h[i..j]) && OptFraction(h[j..])
  }

  /** The whole anchored pattern: a half, a comma, a half. */
  ghost predicate LocationGrammar(s: string) {
    exists k :: 0 <= k < |s| && s[k] == ',' && HalfGrammar(s[..k]) && HalfGrammar(s[k + 1..])
  }

  /** `[0-9]*(\.[0-9]+)?`: a half once its sign has been read. */
  ghost predicate DigitsThenFraction(h: string) {
    exists j :: 0 <= j <= |h| && AllDigits(h[..j]) && OptFraction(h[j..])
  }

  // ---------------------------------------------------------------------------
  // Recogniser
  // ---------------------------------------------------------------------------

  /**
   States of the automaton for one half. `IntPart` is entered after the sign or
   a digit (the integer part may be empty), `Point` right after the `.`,
   `FracPart` after at least one fraction digit; `Reject` is the dead state.
   */
  datatype HalfState = Start | IntPart | Point | FracPart | Reject

  function Step(q: HalfState, c: char): HalfState {
    match q
    case Start => if c == '-' || IsDigit(c) then IntPart else if c == '.' then Point else Reject
    case IntPart => if IsDigit(c) then IntPart else if c == '.' then Point else Reject
    case Point => if IsDigit(c) then FracPart else Reject
    case FracPart => if IsDigit(c) then FracPart else Reject
    case Reject => Reject
  }

  /** A half may end anywhere but right after a `.` (or after a rejected character). */
  predicate Accepting(q: HalfState) {
    q == Start || q == IntPart || q == FracPart
  }

  function Run(q: HalfState, h: string): HalfState
    decreases |h|
  {
    if h == [] then q else Run(Step(q, h[0]), h[1..])
  }

  predicate ValidHalf(h: string) {
    Accepting(Run(Start, h))
  }

  /** Index of the first comma of `s`, or `|s|` when there is none. */
  function CommaIndex(s: string): (k: nat)
    ensures k <= |s|
    ensures k < |s| ==> s[k] == ','
    ensures forall i :: 0 <= i < k ==> s[i] != ','
  {
    if s == [] || s[0] == ',' then 0 else 1 + CommaIndex(s[1..])
  }

  /** A comma with none before it is the one `CommaIndex` finds. */
  lemma FirstComma(s: string, k: int)
    requires 0 <= k < |s| && s[k] == ','
    requires forall i :: 0 <= i < k ==> s[i] != ','
    ensures CommaIndex(s) == k
  {
  }

  /** The location check of `Fetch`: split at the first comma, recognise both halves. */
  predicate ValidLocation(s: string) {
    var k := CommaIndex(s);
    k < |s| && ValidHalf(s[..k]) && ValidHalf(s[k + 1..])
  }

  // ---------------------------------------------------------------------------
  // The recogniser accepts exactly the grammar
  // ---------------------------------------------------------------------------

  lemma {:induction false} RejectIsFinal(h: string)
    ensures Run(Reject, h) == Reject
    decreases |h|
  {
    if h != [] {
      RejectIsFinal(h[1..]);
    }
  }

  /** From `FracPart` the automaton accepts exactly the digit strings. */
  lemma {:induction false} FracPartLanguage(h: string)
    ensures Accepting(Run(FracPart, h)) <==> AllDigits(h)
    decreases |h|
  {
    if h != [] {
      FracPartLanguage(h[1..]);
      if !IsDigit(h[0]) {
        RejectIsFinal(h[1..]);
      }
    }
  }

  /** From `Point` the automaton accepts exactly the non-empty digit strings. */
  lemma PointLanguage(h: string)
    ensures Accepting(Run(Point, h)) <==> |h| >= 1 && AllDigits(h)
  {
    if h != [] {
      FracPartLanguage(h[1..]);
      if !IsDigit(h[0]) {
        RejectIsFinal(h[1..]);
      }
    }
  }

  /** A leading digit belongs to the integer part. */
  lemma DigitThenFraction(h: string)
    requires h != [] && IsDigit(h[0])
    ensures DigitsThenFraction(h) <==> DigitsThenFraction(h[1..])
  {
    if DigitsThenFraction(h[1..]) {
      var j :| 0 <= j <= |h[1..]| && AllDigits(h[1..][..j]) && OptFraction(h[1..][j..]);
      assert h[..j + 1] == [h[0]] + h[1..][..j];
      assert h[j + 1..] == h[1..][j..];
      assert AllDigits(h[..j + 1]) && OptFraction(h[j + 1..]);
    }
    if DigitsThenFraction(h) {
      var j :| 0 <= j <= |h| && AllDigits(h[..j]) && OptFraction(h[j..]);
      assert h[0..] == h;
      assert j > 0;
      assert h[1..][..j - 1] == h[1..j];
      assert h[1..][j - 1..] == h[j..];
      assert AllDigits(h[1..][..j - 1]) && OptFraction(h[1..][j - 1..]);
    }
  }

  /** A leading `.` opens the fraction: the integer part is empty. */
  lemma PointThenFraction(h: string)
    requires h != [] && h[0] == '.'
    ensures DigitsThenFraction(h) <==> |h[1..]| >= 1 && AllDigits(h[1..])
  {
    assert h[0..] == h;
    assert forall m :: 0 < m <= |h| ==> h[..m][0] == h[0];
    if |h[1..]| >= 1 && AllDigits(h[1..]) {
      assert AllDigits(h[..0]) && OptFraction(h[0..]);
    }
  }

  /** Any other leading character is outside `[0-9]*(\.[0-9]+)?`. */
  lemma OtherNotFraction(h: string)
    requires h != [] && !IsDigit(h[0]) && h[0] != '.'
    ensures !DigitsThenFraction(h)
  {
    assert h[0..] == h;
    assert forall m :: 0 < m <= |h| ==> h[..m][0] == h[0];
  }

  /** From `IntPart` the automaton accepts exactly `[0-9]*(\.[0-9]+)?`. */
  lemma {:induction false} IntPartLanguage(h: string)
    ensures Accepting(Run(IntPart, h)) <==> DigitsThenFraction(h)
    decreases |h|
  {
    if h == [] {
      assert AllDigits(h[..0]) && OptFraction(h[0..]);
    } else if IsDigit(h[0]) {
      IntPartLanguage(h[1..]);
      DigitThenFraction(h);
    } else if h[0] == '.' {
      PointLanguage(h[1..]);
      PointThenFraction(h);
    } else {
      RejectIsFinal(h[1..]);
      OtherNotFraction(h);
    }
  }

  /** A half is a sign (or nothing) followed by `[0-9]*(\.[0-9]+)?`. */
  lemma SignSplit(h: string)
    ensures HalfGrammar(h) <==>
              DigitsThenFraction(h) || (|h| >= 1 && h[0] == '-' && DigitsThenFraction(h[1..]))
  {
    if HalfGrammar(h) {
      var i, j :| 0 <= i <= j <= |h| && OptSign(h[..i]) && AllDigits(h[i..j]) && OptFraction(h[j..]);
      if i == 0 {
        assert h[..j] == h[i..j];
        assert DigitsThenFraction(h);
      } else {
        assert i == 1 && h[0] == '-';
        assert h[1..][..j - 1] == h[i..j];
        assert h[1..][j - 1..] == h[j..];
        assert DigitsThenFraction(h[1..]);
      }
    }
    if DigitsThenFraction(h) {
      var j :| 0 <= j <= |h| && AllDigits(h[..j]) && OptFraction(h[j..]);
      assert h[..0] == [] && h[0..j] == h[..j];
      assert HalfGrammar(h);
    }
    if |h| >= 1 && h[0] == '-' && DigitsThenFraction(h[1..]) {
      var j :| 0 <= j <= |h[1..]| && AllDigits(h[1..][..j]) && OptFraction(h[1..][j..]);
      assert h[..1] == "-";
      assert h[1..j + 1] == h[1..][..j];
      assert h[j + 1..] == h[1..][j..];
      assert HalfGrammar(h);
    }
  }

  /** The automaton for one half accepts exactly `-?[0-9]*(\.[0-9]+)?`. */
  lemma HalfLanguage(h: string)
    ensures ValidHalf(h) <==> HalfGrammar(h)
  {
    SignSplit(h);
    if h == [] {
      IntPartLanguage(h);
    } else if h[0] == '-' {
      IntPartLanguage(h[1..]);
      // a string opening with '-' is not [0-9]*(\.[0-9]+)?
      IntPartLanguage(h);
      assert Step(IntPart, h[0]) == Reject;
      RejectIsFinal(h[1..]);
    } else {
      assert Step(Start, h[0]) == Step(IntPart, h[0]);
      IntPartLanguage(h);
    }
  }

  /** Every character of an accepted suffix is a digit, a `.` or (from `Start`) a `-`. */
  lemma {:induction false} AcceptedCharacters(q: HalfState, h: string)
    requires Accepting(Run(q, h))
    ensures forall i :: 0 <= i < |h| ==> IsDigit(h[i]) || h[i] == '.' || h[i] == '-'
    decreases |h|
  {
    if h != [] {
      if Step(q, h[0]) == Reject {
        RejectIsFinal(h[1..]);
      }
      AcceptedCharacters(Step(q, h[0]), h[1..]);
      assert forall i :: 1 <= i < |h| ==> h[i] == h[1..][i - 1];
    }
  }

  /** The recogniser accepts exactly the strings the anchored pattern matches. */
  lemma LocationLanguage(s: string)
    ensures ValidLocation(s) <==> LocationGrammar(s)
  {
    var k := CommaIndex(s);
    if ValidLocation(s) {
      HalfLanguage(s[..k]);
      HalfLanguage(s[k + 1..]);
    }
    if LocationGrammar(s) {
      var m :| 0 <= m < |s| && s[m] == ',' && HalfGrammar(s[..m]) && HalfGrammar(s[m + 1..]);
      HalfLanguage(s[..m]);
      HalfLanguage(s[m + 1..]);
      AcceptedCharacters(Start, s[..m]);
      assert forall i :: 0 <= i < m ==> s[i] == s[..m][i];
      assert k == m;
    }
  }

  // ---------------------------------------------------------------------------
  // Shape of an accepted location
  // ---------------------------------------------------------------------------

  /**
   Within one accepted half: only digits, `.` and `-` occur, a `-` can only be
   the first character, and every `.` is followed by a digit.
   */
  lemma HalfShape(h: string)
    requires ValidHalf(h)
    ensures forall p :: 0 <= p < |h| ==> IsDigit(h[p]) || h[p] == '.' || h[p] == '-'
    ensures forall p :: 0 < p < |h| ==> h[p] != '-'
    ensures forall p :: 0 <= p < |h| && h[p] == '.' ==> p + 1 < |h| && IsDigit(h[p + 1])
  {
    HalfLanguage(h);
    var i, j :| 0 <= i <= j <= |h| && OptSign(h[..i]) && AllDigits(h[i..j]) && OptFraction(h[j..]);
    assert forall p :: i <= p < j ==> h[p] == h[i..j][p - i];
    assert forall p :: j <= p < |h| ==> h[p] == h[j..][p - j];
    assert forall p :: j < p < |h| ==> h[p] == h[j..][1..][p - j - 1];
  }

  /** An accepted half holds at most one `.`: none follows the first. */
  lemma HalfOnePoint(h: string, p: int, q: int)
    requires ValidHalf(h)
    requires 0 <= p < q < |h| && h[p] == '.'
    ensures h[q] != '.'
  {
    HalfLanguage(h);
    var i, j :| 0 <= i <= j <= |h| && OptSign(h[..i]) && AllDigits(h[i..j]) && OptFraction(h[j..]);
    assert forall x :: i <= x < j ==> h[x] == h[i..j][x - i];
    assert j <= p;
    assert h[q] == h[j..][1..][q - j - 1];
  }

  predicate HasDigit(s: string) {
    exists i :: 0 <= i < |s| && IsDigit(s[i])
  }

  /**
   Because the integer part may be empty, a half can pass without a single
   digit, but only as the empty string or a bare `-`.
   */
  lemma DigitFreeHalf(h: string)
    requires ValidHalf(h) && !HasDigit(h)
    ensures h == [] || h == "-"
  {
    HalfLanguage(h);
    var i, j :| 0 <= i <= j <= |h| && OptSign(h[..i]) && AllDigits(h[i..j]) && OptFraction(h[j..]);
    NonEmptyDigitsHaveDigit(h, i, j);
    FractionHasDigit(h, j);
    assert h == h[..i];
  }

  lemma NonEmptyDigitsHaveDigit(h: string, i: int, j: int)
    requires 0 <= i <= j <= |h| && AllDigits(h[i..j])
    ensures i < j ==> HasDigit(h)
  {
    if i < j {
      assert h[i..j][0] == h[i];
    }
  }

  lemma FractionHasDigit(h: string, j: int)
    requires 0 <= j <= |h| && OptFraction(h[j..])
    ensures j < |h| ==> HasDigit(h)
  {
    if j < |h| {
      assert h[j..][1..][0] == h[j + 1];
    }
  }

  /** An accepted location contains exactly one comma. */
  lemma OneComma(s: string)
    requires ValidLocation(s)
    ensures multiset(s)[','] == 1
  {
    var k := CommaIndex(s);
    HalfShape(s[..k]);
    HalfShape(s[k + 1..]);
    assert s == s[..k] + [','] + s[k + 1..];
    assert ',' !in multiset(s[..k]);
    assert ',' !in multiset(s[k + 1..]);
  }

  /** Every character of an accepted location is a digit, `-`, `.` or `,`; whitespace never is. */
  lemma Alphabet(s: string)
    requires ValidLocation(s)
    ensures forall i :: 0 <= i < |s| ==> IsDigit(s[i]) || s[i] == '-' || s[i] == '.' || s[i] == ','
  {
    var k := CommaIndex(s);
    HalfShape(s[..k]);
    HalfShape(s[k + 1..]);
    assert forall i :: 0 <= i < k ==> s[i] == s[..k][i];
    assert forall i :: k < i < |s| ==> s[i] == s[k + 1..][i - k - 1];
  }

  /** A `-` opens one of the two halves, and appears nowhere else. */
  lemma MinusOpensHalf(s: string)
    requires ValidLocation(s)
    ensures forall i :: 0 < i < |s| && s[i] == '-' ==> s[i - 1] == ','
  {
    var k := CommaIndex(s);
    HalfShape(s[..k]);
    HalfShape(s[k + 1..]);
    assert forall i :: 0 <= i < k ==> s[i] == s[..k][i];
    assert forall i :: k < i < |s| ==> s[i] == s[k + 1..][i - k - 1];
  }

  /** A `.` is always followed by a digit, so it never ends a half. */
  lemma PointThenDigit(s: string)
    requires ValidLocation(s)
    ensures forall i :: 0 <= i < |s| && s[i] == '.' ==> i + 1 < |s| && IsDigit(s[i + 1])
  {
    var k := CommaIndex(s);
    HalfShape(s[..k]);
    HalfShape(s[k + 1..]);
    assert forall i :: 0 <= i < k ==> s[i] == s[..k][i];
    assert forall i :: k < i < |s| ==> s[i] == s[k + 1..][i - k - 1];
  }

  /** Each half holds at most one `.`: between two points there is always the comma. */
  lemma OnePointPerHalf(s: string)
    requires ValidLocation(s)
    ensures forall i, j :: 0 <= i < j < |s| && s[i] == '.' && s[j] == '.' ==> i < CommaIndex(s) < j
  {
    var k := CommaIndex(s);
    var a, b := s[..k], s[k + 1..];
    forall i, j | 0 <= i < j < |s| && s[i] == '.' && s[j] == '.'
      ensures i < k < j
    {
      if j < k {
        assert a[i] == '.';
        HalfOnePoint(a, i, j);
      } else if k < i {
        assert b[i - k - 1] == '.';
        HalfOnePoint(b, i - k - 1, j - k - 1);
      }
    }
  }

}
