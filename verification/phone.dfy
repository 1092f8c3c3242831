/**
 * The phone-number normaliser of the resume extractor: delete every "+91" (with an
 * optional following '-') and every non-digit, cut what is left into consecutive
 * ten-digit groups and join them with ", ".
 */
module Phone {
  import opened Text

  /** The country code "+91" occurs in `s` at index `i`. */
  predicate CodeAt(s: string, i: nat) {
    i + 3 <= |s| && s[i] == '+' && s[i + 1] == '9' && s[i + 2] == '1'
  }

  /** The separator between ten-digit groups. */
  const GroupSeparator := ", "

  /**
   * `re.sub(r'\+91-?|\D', '', s)`: a left-to-right scan that at each position first
   * tries "+91-" (the optional '-' is greedy), then "+91", then a single non-digit,
   * deleting whatever matched, and otherwise keeps the digit and moves on.
   */
  function Clean(s: string): (r: string)
    ensures |r| <= |s|
    ensures AllDigits(r)
    decreases |s|
  {
    if |s| == 0 then ""
    else if CodeAt(s, 0) && |s| >= 4 && s[3] == '-' then Clean(s[4..])
    else if CodeAt(s, 0) then Clean(s[3..])
    else if !IsDigit(s[0]) then Clean(s[1..])
    else [s[0]] + Clean(s[1..])
  }

  /** Position `i` holds the '9' or the '1' of an occurrence of "+91". */
  predicate InCountryCode(s: string, i: nat) {
    || (i >= 1 && CodeAt(s, i - 1))
    || (i >= 2 && CodeAt(s, i - 2))
  }

  /** The character at `i` survives cleaning: a digit that is not part of a "+91". */
  predicate Kept(s: string, i: nat)
    requires i < |s|
  {
    IsDigit(s[i]) && !InCountryCode(s, i)
  }

  /** The kept characters of `s` from index `k` on, in their original order. */
  function KeptFrom(s: string, k: nat): string
    decreases |s| - k
  {
    if k >= |s| then "" else (if Kept(s, k) then [s[k]] else "") + KeptFrom(s, k + 1)
  }

  /** Reference definition of cleaning, position by position. */
  function KeptDigits(s: string): string {
    KeptFrom(s, 0)
  }

  /** No occurrence of "+91" straddles index `k`. */
  predicate Boundary(s: string, k: nat) {
    !(k >= 1 && CodeAt(s, k - 1)) && !(k >= 2 && CodeAt(s, k - 2))
  }

  // One step of the scan, one lemma per branch of `Clean`.

  lemma CleanCodeDashStep(s: string)
    requires CodeAt(s, 0) && |s| >= 4 && s[3] == '-'
    ensures Clean(s) == Clean(s[4..])
  {
  }

  lemma CleanCodeStep(s: string)
    requires CodeAt(s, 0) && !(|s| >= 4 && s[3] == '-')
    ensures Clean(s) == Clean(s[3..])
  {
  }

  lemma CleanOtherStep(s: string)
    requires |s| > 0 && !CodeAt(s, 0) && !IsDigit(s[0])
    ensures Clean(s) == Clean(s[1..])
  {
  }

  lemma CleanDigitStep(s: string)
    requires |s| > 0 && IsDigit(s[0])
    ensures Clean(s) == [s[0]] + Clean(s[1..])
  {
    assert !CodeAt(s, 0);
  }

  /** A position the reference does not keep contributes nothing. */
  lemma SkipUnkept(s: string, k: nat)
    requires k < |s| && !Kept(s, k)
    ensures KeptFrom(s, k) == KeptFrom(s, k + 1)
  {
  }

  /**
   * From a boundary `k`, the scan consumes the `j` characters at `k` emitting
   * `x`, the reference keeps the same `x` from those positions, and `k + j` is
   * a boundary again.
   */
  predicate StepAgrees(s: string, k: nat, j: nat, x: string) {
    && k + j <= |s|
    && Boundary(s, k + j)
    && Clean(s[k..]) == x + Clean(s[k + j..])
    && KeptFrom(s, k) == x + KeptFrom(s, k + j)
  }

  /** The scan drops "+91-" at a position `k`. */
  lemma CleanDropsCodeDashAt(s: string, k: nat)
    requires k + 4 <= |s| && CodeAt(s, k) && s[k + 3] == '-'
    ensures Clean(s[k..]) == Clean(s[k + 4..])
  {
    var t := s[k..];
    assert CodeAt(t, 0) && t[3] == '-';
    CleanCodeDashStep(t);
    assert t[4..] == s[k + 4..];
  }

  /** The scan drops "+91" not followed by '-' at a position `k`. */
  lemma CleanDropsCodeAt(s: string, k: nat)
    requires CodeAt(s, k) && !(k + 4 <= |s| && s[k + 3] == '-')
    ensures Clean(s[k..]) == Clean(s[k + 3..])
  {
    var t := s[k..];
    assert CodeAt(t, 0) && !(|t| >= 4 && t[3] == '-');
    CleanCodeStep(t);
    assert t[3..] == s[k + 3..];
  }

  /** The reference keeps none of the characters of a "+91" at `k`. */
  lemma KeptSkipsCode(s: string, k: nat)
    requires CodeAt(s, k)
    ensures KeptFrom(s, k) == KeptFrom(s, k + 3)
  {
    SkipUnkept(s, k);
    SkipUnkept(s, k + 1);
    SkipUnkept(s, k + 2);
  }

  /** "+91-" is dropped by the scan and by the reference. */
  lemma DropCodeDash(s: string, k: nat)
    requires k + 4 <= |s| && CodeAt(s, k) && s[k + 3] == '-'
    ensures StepAgrees(s, k, 4, "")
  {
    CleanDropsCodeDashAt(s, k);
    KeptSkipsCode(s, k);
    SkipUnkept(s, k + 3);
    assert "" + Clean(s[k + 4..]) == Clean(s[k + 4..]);
    assert "" + KeptFrom(s, k + 4) == KeptFrom(s, k + 4);
  }

  /** "+91" not followed by '-' is dropped by both. */
  lemma DropCode(s: string, k: nat)
    requires CodeAt(s, k) && !(k + 4 <= |s| && s[k + 3] == '-')
    ensures StepAgrees(s, k, 3, "")
  {
    CleanDropsCodeAt(s, k);
    KeptSkipsCode(s, k);
    assert "" + Clean(s[k + 3..]) == Clean(s[k + 3..]);
    assert "" + KeptFrom(s, k + 3) == KeptFrom(s, k + 3);
  }

  /** A non-digit outside a "+91" is dropped by both. */
  lemma DropOther(s: string, k: nat)
    requires k < |s| && Boundary(s, k) && !CodeAt(s, k) && !IsDigit(s[k])
    ensures StepAgrees(s, k, 1, "")
  {
    var t := s[k..];
    assert t[0] == s[k] && !CodeAt(t, 0);
    CleanOtherStep(t);
    assert t[1..] == s[k + 1..];
    SkipUnkept(s, k);
    assert "" + Clean(s[k + 1..]) == Clean(s[k + 1..]);
    assert "" + KeptFrom(s, k + 1) == KeptFrom(s, k + 1);
  }

  /** A digit outside a "+91" is kept by both. */
  lemma KeepDigit(s: string, k: nat)
    requires k < |s| && Boundary(s, k) && !CodeAt(s, k) && IsDigit(s[k])
    ensures StepAgrees(s, k, 1, [s[k]])
  {
    var t := s[k..];
    assert t[0] == s[k] && !CodeAt(t, 0);
    CleanDigitStep(t);
    assert t[1..] == s[k + 1..];
    assert Kept(s, k);
  }

  /** Every boundary before the end starts a step on which scan and reference agree. */
  lemma CleanStepFrom(s: string, k: nat) returns (j: nat, x: string)
    requires k < |s| && Boundary(s, k)
    ensures 1 <= j && StepAgrees(s, k, j, x)
  {
    if CodeAt(s, k) && k + 4 <= |s| && s[k + 3] == '-' {
      DropCodeDash(s, k);
      j, x := 4, "";
    } else if CodeAt(s, k) {
      DropCode(s, k);
      j, x := 3, "";
    } else if !IsDigit(s[k]) {
      DropOther(s, k);
      j, x := 1, "";
    } else {
      KeepDigit(s, k);
      j, x := 1, [s[k]];
    }
  }

  lemma {:induction false} CleanFrom(s: string, k: nat)
    requires k <= |s| && Boundary(s, k)
    ensures Clean(s[k..]) == KeptFrom(s, k)
    decreases |s| - k
  {
    if k < |s| {
      var j, x := CleanStepFrom(s, k);
      CleanFrom(s, k + j);
    }
  }

  /** The regex scan and the position-wise reference agree on every input. */
  lemma CleanIsKeptDigits(s: string)
    ensures Clean(s) == KeptDigits(s)
  {
    assert s[0..] == s;
    CleanFrom(s, 0);
  }

  /**
   * `re.findall(r'\d{10}', s)`: scanning left to right, take ten digits whenever
   * ten digits start here, otherwise move on by one character.
   */
  function FindTen(s: string): (r: seq<string>)
    ensures forall i :: 0 <= i < |r| ==> |r[i]| == 10 && AllDigits(r[i])
    decreases |s|
  {
    if |s| < 10 then []
    else if AllDigits(s[..10]) then [s[..10]] + FindTen(s[10..])
    else FindTen(s[1..])
  }

  /** `ResumeParser.format_number`. */
  function FormatNumber(raw: string): (r: string)
    ensures raw == "" ==> r == ""
  {
    if raw == "" then "" else Join(FindTen(Clean(raw)), GroupSeparator)
  }

  /** The consecutive ten-character groups of `c`, left to right; a shorter tail is dropped. */
  function TenDigitGroups(c: string): seq<string> {
    seq(|c| / 10, i requires 0 <= i < |c| / 10 => c[10 * i..10 * i + 10])
  }

  lemma TenDigitGroupsCons(c: string)
    requires |c| >= 10
    ensures TenDigitGroups(c) == [c[..10]] + TenDigitGroups(c[10..])
  {
    var g := TenDigitGroups(c);
    var h := TenDigitGroups(c[10..]);
    assert |g| == 1 + |h|;
    forall i | 1 <= i < |g| ensures g[i] == h[i - 1] {
      assert c[10..][10 * (i - 1)..10 * (i - 1) + 10] == c[10 * i..10 * i + 10];
    }
  }

  /** On a digit string, the findall scan yields exactly the consecutive ten-digit groups. */
  lemma {:induction false} FindTenOnDigits(c: string)
    requires AllDigits(c)
    ensures FindTen(c) == TenDigitGroups(c)
    decreases |c|
  {
    if |c| >= 10 {
      TenDigitGroupsCons(c);
      FindTenOnDigits(c[10..]);
    }
  }

  /** The groups are the first 10*k characters of `c`, where k = |c| div 10. */
  lemma {:induction false} GroupsCoverPrefix(c: string)
    ensures Concat(TenDigitGroups(c)) == c[..10 * (|c| / 10)]
    decreases |c|
  {
    if |c| >= 10 {
      TenDigitGroupsCons(c);
      GroupsCoverPrefix(c[10..]);
      assert c[..10] + c[10..][..10 * ((|c| - 10) / 10)] == c[..10 * (|c| / 10)];
    }
  }

  /**
   * The output of `format_number` is the kept digits cut into ten-digit groups and
   * joined by ", "; in particular empty input and fewer than ten kept digits give "".
   */
  lemma FormatNumberShape(raw: string)
    ensures FormatNumber(raw) == Join(TenDigitGroups(KeptDigits(raw)), GroupSeparator)
    ensures |KeptDigits(raw)| < 10 ==> FormatNumber(raw) == ""
  {
    CleanIsKeptDigits(raw);
    FindTenOnDigits(Clean(raw));
  }

  /** A leading digit of `d + t` is kept, and the scan goes on in the rest of `d`. */
  lemma CleanLeadingDigit(d: string, t: string)
    requires |d| > 0 && IsDigit(d[0])
    ensures Clean(d + t) == [d[0]] + Clean(d[1..] + t)
  {
    assert (d + t)[0] == d[0] && (d + t)[1..] == d[1..] + t;
    CleanDigitStep(d + t);
  }

  lemma {:induction false} CleanDigitsPrefix(d: string, t: string)
    requires AllDigits(d)
    ensures Clean(d + t) == d + Clean(t)
    decreases |d|
  {
    if |d| > 0 {
      CleanLeadingDigit(d, t);
      CleanDigitsPrefix(d[1..], t);
      assert d == [d[0]] + d[1..];
    } else {
      assert d + t == t;
    }
  }

  /** The separator between groups holds no digit and no "+91". */
  lemma CleanDropsSeparator(rest: string)
    ensures Clean(GroupSeparator + rest) == Clean(rest)
  {
    var u := GroupSeparator + rest;
    assert u[0] == ',' && !CodeAt(u, 0);
    CleanOtherStep(u);
    var v := u[1..];
    assert v == " " + rest;
    assert v[0] == ' ' && !CodeAt(v, 0);
    CleanOtherStep(v);
    assert v[1..] == rest;
  }

  lemma {:induction false} CleanJoin(g: seq<string>)
    requires forall i :: 0 <= i < |g| ==> AllDigits(g[i])
    ensures Clean(Join(g, GroupSeparator)) == Concat(g)
    decreases |g|
  {
    if |g| == 1 {
      CleanDigitsPrefix(g[0], "");
      assert g[0] + "" == g[0];
      assert Concat(g) == g[0] + Concat(g[1..]);
    } else if |g| > 1 {
      var rest := Join(g[1..], GroupSeparator);
      assert Join(g, GroupSeparator) == g[0] + (GroupSeparator + rest);
      CleanDigitsPrefix(g[0], GroupSeparator + rest);
      CleanDropsSeparator(rest);
      CleanJoin(g[1..]);
    }
  }

  lemma {:induction false} FindTenConcat(g: seq<string>)
    requires forall i :: 0 <= i < |g| ==> |g[i]| == 10 && AllDigits(g[i])
    ensures FindTen(Concat(g)) == g
    decreases |g|
  {
    if |g| > 0 {
      var c := Concat(g);
      assert c == g[0] + Concat(g[1..]);
      assert c[..10] == g[0];
      assert c[10..] == Concat(g[1..]);
      FindTenConcat(g[1..]);
      assert g == [g[0]] + g[1..];
    }
  }

  /** Normalising an already normalised number changes nothing. */
  lemma FormatNumberIdempotent(raw: string)
    ensures FormatNumber(FormatNumber(raw)) == FormatNumber(raw)
  {
    if raw != "" {
      var g := FindTen(Clean(raw));
      CleanJoin(g);
      FindTenConcat(g);
    }
  }

  /** A country code followed by a dash and ten digits normalises to the ten digits. */
  lemma FormatNumberIndianPrefix(digits: string)
    requires |digits| == 10 && AllDigits(digits)
    ensures FormatNumber("+91-" + digits) == digits
  {
    var s := "+91-" + digits;
    assert CodeAt(s, 0) && s[3] == '-';
    assert s[4..] == digits;
    CleanDigitsPrefix(digits, "");
    assert digits + "" == digits;
    assert Clean(s) == digits;
    assert digits[..10] == digits && digits[10..] == "";
    assert FindTen(digits) == [digits];
  }

  lemma {:induction false} CleanDropsGap(gap: string, t: string)
    requires forall k :: 0 <= k < |gap| ==> !IsDigit(gap[k])
    requires gap == "" || gap[|gap| - 1] != '+'
    ensures Clean(gap + t) == Clean(t)
    decreases |gap|
  {
    if gap != "" {
      var s := gap + t;
      assert s[0] == gap[0];
      assert |gap| >= 2 ==> s[1] == gap[1];
      assert !CodeAt(s, 0);
      assert s[1..] == gap[1..] + t;
      CleanDropsGap(gap[1..], t);
    } else {
      assert gap + t == t;
    }
  }

  /** Two ten-digit numbers separated by digit-free text come out joined by ", ". */
  lemma FormatNumberTwoNumbers(d1: string, gap: string, d2: string)
    requires |d1| == 10 && AllDigits(d1) && |d2| == 10 && AllDigits(d2)
    requires forall k :: 0 <= k < |gap| ==> !IsDigit(gap[k])
    requires gap == "" || gap[|gap| - 1] != '+'
    ensures FormatNumber(d1 + gap + d2) == d1 + GroupSeparator + d2
  {
    var raw := d1 + gap + d2;
    assert raw == d1 + (gap + d2);
    CleanDigitsPrefix(d1, gap + d2);
    CleanDropsGap(gap, d2);
    CleanDigitsPrefix(d2, "");
    assert d2 + "" == d2;
    var g := [d1, d2];
    assert Concat(g) == d1 + d2 by {
      assert Concat(g[1..]) == d2 + Concat([]);
    }
    FindTenConcat(g);
    assert Clean(raw) == d1 + d2;
    assert g[1..] == [d2];
    assert Join(g, GroupSeparator) == d1 + GroupSeparator + d2;
    assert raw != "";
  }

  /**
   * A "+91" in the middle of the text is deleted too, taking its "91" with it:
   * ten digits, a space, "+91" and eight more digits keep only the first ten.
   */
  lemma FormatNumberCodeMidString(d1: string, tail: string)
    requires |d1| == 10 && AllDigits(d1) && |tail| == 8 && AllDigits(tail)
    ensures FormatNumber(d1 + " +91" + tail) == d1
  {
    var raw := d1 + " +91" + tail;
    var u := " +91" + tail;
    assert raw == d1 + u;
    assert Clean(u) == tail by {
      assert u[0] == ' ' && !CodeAt(u, 0);
      CleanOtherStep(u);
      var v := u[1..];
      assert CodeAt(v, 0) && v[3] != '-';
      CleanCodeStep(v);
      assert v[3..] == tail;
      CleanDigitsPrefix(tail, "");
      assert tail + "" == tail;
    }
    CleanDigitsPrefix(d1, u);
    var c := d1 + tail;
    assert c[..10] == d1 && AllDigits(c[..10]);
    assert c[10..] == tail;
    assert FindTen(c) == [d1];
  }
}
