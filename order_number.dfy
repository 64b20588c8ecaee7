/** The invoice-number rule of `generateOrderNumber`: "INV", today's date as
    'Ymd', then a sequence number padded to four digits, one more than that of
    the greatest number already issued today. */
module OrderNumber {
  import opened Wrappers
  import opened Text
  import opened SqlLike
  import opened Dates

  /** "INV" followed by today's date: the first 11 characters of every number issued today. */
  function DayPrefix(today: Date): (r: string)
    ensures |r| == 11 && NoWildcards(r) && AllDigits(r[3..])
  {
    "INV" + FormatYmd(today)
  }

  /** `(int) substr($no, 11)`: the part after the date, read as PHP reads an
      int out of a string; `substr` past the end gives "". */
  function SuffixValue(no: string): int
  {
    if |no| >= 11 then PhpToInt(no[11..]) else 0
  }

  lemma LatestStep(nos: seq<string>, pattern: string, best: string)
    requires nos != [] && Like(nos[0], pattern) && !LexLe(nos[0], best)
    requires forall i :: 1 <= i < |nos| && Like(nos[i], pattern) ==> LexLe(nos[i], best)
    ensures forall i :: 0 <= i < |nos| && Like(nos[i], pattern) ==> LexLe(nos[i], nos[0])
  {
    LexLeTotal(nos[0], best);
    forall i | 1 <= i < |nos| && Like(nos[i], pattern)
      ensures LexLe(nos[i], nos[0])
    {
      LexLeTransitive(nos[i], best, nos[0]);
    }
    LexLeTotal(nos[0], nos[0]);
  }

  /** `where('order_no', 'like', pattern)->orderByDesc('order_no')->first()`:
      the greatest matching number in byte order, if any matches. */
  function Latest(nos: seq<string>, pattern: string): (r: Option<string>)
    ensures r.None? <==> forall i :: 0 <= i < |nos| ==> !Like(nos[i], pattern)
    ensures r.Some? ==> r.value in nos && Like(r.value, pattern)
    ensures r.Some? ==> forall i :: 0 <= i < |nos| && Like(nos[i], pattern) ==> LexLe(nos[i], r.value)
  {
    if nos == [] then None
    else
      var rest := Latest(nos[1..], pattern);
      assert forall i :: 1 <= i < |nos| ==> nos[i] == nos[1..][i - 1];
      if !Like(nos[0], pattern) then rest
      else match rest
        case None => LexLeTotal(nos[0], nos[0]); Some(nos[0])
        case Some(best) =>
          if LexLe(nos[0], best) then rest
          else LatestStep(nos, pattern, best); Some(nos[0])
  }

  /** What `generateOrderNumber` builds from the day prefix and the row its query found. */
  function NextNumber(prefix: string, latest: Option<string>): string
  {
    match latest
    case None => prefix + "0001"
    case Some(no) => prefix + PadLeft(IntToStr(SuffixValue(no) + 1), 4, '0')
  }

  /** The rule of `generateOrderNumber` for a given prefix of the day: look up
      the greatest number starting with it and continue from there. */
  function NumberAfter(nos: seq<string>, prefix: string): string
  {
    NextNumber(prefix, Latest(nos, prefix + "%"))
  }

  /** `generateOrderNumber` over the `order_no` column `nos`. */
  function GenerateOrderNumber(nos: seq<string>, today: Date): string
  {
    NumberAfter(nos, DayPrefix(today))
  }

  /** A prefix the way `DayPrefix` makes them: 11 characters and no wildcard. */
  predicate PrefixShape(prefix: string)
  {
    |prefix| == 11 && NoWildcards(prefix)
  }

  /** The `LIKE 'INV<today>%'` filter is the prefix test. */
  lemma MatchesToday(no: string, today: Date)
    ensures Like(no, DayPrefix(today) + "%") <==> IsPrefix(DayPrefix(today), no)
  {
    LikePrefix(no, DayPrefix(today));
  }

  /** `Latest` for the pattern `prefix%`, in terms of the prefix test. */
  lemma LatestWith(nos: seq<string>, prefix: string)
    requires NoWildcards(prefix)
    ensures var r := Latest(nos, prefix + "%");
      && (r.None? <==> forall i :: 0 <= i < |nos| ==> !IsPrefix(prefix, nos[i]))
      && (r.Some? ==> r.value in nos && IsPrefix(prefix, r.value))
      && (r.Some? ==> forall i :: 0 <= i < |nos| && IsPrefix(prefix, nos[i]) ==> LexLe(nos[i], r.value))
  {
    forall j | 0 <= j < |nos| ensures Like(nos[j], prefix + "%") <==> IsPrefix(prefix, nos[j]) {
      LikePrefix(nos[j], prefix);
    }
  }

  lemma FirstWith(nos: seq<string>, prefix: string)
    requires PrefixShape(prefix)
    requires forall i :: 0 <= i < |nos| ==> !IsPrefix(prefix, nos[i])
    ensures NumberAfter(nos, prefix) == prefix + "0001"
  {
    LatestWith(nos, prefix);
  }

  /** With no number issued today, the first one ends in 0001. */
  lemma FirstOfTheDay(nos: seq<string>, today: Date)
    requires forall i :: 0 <= i < |nos| ==> !IsPrefix(DayPrefix(today), nos[i])
    ensures GenerateOrderNumber(nos, today) == DayPrefix(today) + "0001"
  {
    FirstWith(nos, DayPrefix(today));
  }

  /** `no` sorts at or above every number starting with `prefix`. */
  predicate GreatestWith(nos: seq<string>, prefix: string, no: string)
  {
    forall j :: 0 <= j < |nos| && IsPrefix(prefix, nos[j]) ==> LexLe(nos[j], no)
  }

  /** The number that follows the row the query found. */
  lemma NumberAfterLatest(nos: seq<string>, prefix: string, no: string)
    requires Latest(nos, prefix + "%") == Some(no) && |no| >= 11
    ensures NumberAfter(nos, prefix) == prefix + PadLeft(IntToStr(PhpToInt(no[11..]) + 1), 4, '0')
  {
    var v := SuffixValue(no);
    assert v == PhpToInt(no[11..]);
    assert NumberAfter(nos, prefix) == NextNumber(prefix, Some(no)) == prefix + PadLeft(IntToStr(v + 1), 4, '0');
  }

  lemma ContinuesWith(nos: seq<string>, prefix: string)
    requires PrefixShape(prefix)
    requires exists i :: 0 <= i < |nos| && IsPrefix(prefix, nos[i])
    ensures exists i ::
      && 0 <= i < |nos| && IsPrefix(prefix, nos[i]) && GreatestWith(nos, prefix, nos[i])
      && NumberAfter(nos, prefix) == prefix + PadLeft(IntToStr(PhpToInt(nos[i][11..]) + 1), 4, '0')
  {
    var latest := Latest(nos, prefix + "%");
    var i: int;
    i := LatestIndex(nos, prefix);
    NumberAfterLatest(nos, prefix, nos[i]);
  }

  /** Where the row the query found sits, and that it is today's greatest. */
  lemma LatestIndex(nos: seq<string>, prefix: string) returns (i: int)
    requires PrefixShape(prefix)
    requires exists i :: 0 <= i < |nos| && IsPrefix(prefix, nos[i])
    ensures 0 <= i < |nos| && Latest(nos, prefix + "%") == Some(nos[i])
    ensures IsPrefix(prefix, nos[i]) && GreatestWith(nos, prefix, nos[i])
  {
    LatestWith(nos, prefix);
    var latest := Latest(nos, prefix + "%");
    i :| 0 <= i < |nos| && nos[i] == latest.value;
  }

  /** Otherwise the number continues from the greatest of today's numbers. */
  lemma ContinuesFromGreatest(nos: seq<string>, today: Date)
    requires exists i :: 0 <= i < |nos| && IsPrefix(DayPrefix(today), nos[i])
    ensures exists i ::
      && 0 <= i < |nos| && IsPrefix(DayPrefix(today), nos[i])
      && GreatestWith(nos, DayPrefix(today), nos[i])
      && GenerateOrderNumber(nos, today)
         == DayPrefix(today) + PadLeft(IntToStr(PhpToInt(nos[i][11..]) + 1), 4, '0')
  {
    ContinuesWith(nos, DayPrefix(today));
  }

  /** A number in the intended shape: the prefix and four digits. */
  predicate NumberWith(no: string, prefix: string)
  {
    |no| == 15 && |prefix| == 11 && no[..11] == prefix && AllDigits(no[11..])
  }

  /** A number issued on `today` in the intended shape: the day prefix and four digits. */
  predicate IsDayNumber(no: string, today: Date)
  {
    NumberWith(no, DayPrefix(today))
  }

  /** The sequence part of a well-formed number. */
  function Sequence(no: string): nat
    requires |no| >= 11 && AllDigits(no[11..])
  {
    Value(no[11..])
  }

  /** Numbers with the same prefix sort as their sequence parts. */
  lemma NumberOrder(a: string, b: string, prefix: string)
    requires NumberWith(a, prefix) && NumberWith(b, prefix)
    ensures LexLe(a, b) <==> Sequence(a) <= Sequence(b)
  {
    assert a == prefix + a[11..] && b == prefix + b[11..];
    LexLeCommonPrefix(prefix, a[11..], b[11..]);
    LexLeDigits(a[11..], b[11..]);
  }

  lemma DayNumberOrder(a: string, b: string, today: Date)
    requires IsDayNumber(a, today) && IsDayNumber(b, today)
    ensures LexLe(a, b) <==> Sequence(a) <= Sequence(b)
  {
    NumberOrder(a, b, DayPrefix(today));
  }

  /** The next number in shape, from the sequence part it gets. */
  lemma NextInShape(prefix: string, n: nat)
    requires |prefix| == 11 && 1 <= n <= 9999
    ensures Pow10(4) == 10000
    ensures NumberWith(prefix + ZeroPad(n, 4), prefix) && Sequence(prefix + ZeroPad(n, 4)) == n
  {
    Pow10Widths();
    var r := prefix + ZeroPad(n, 4);
    assert r[..11] == prefix && r[11..] == ZeroPad(n, 4);
  }

  /** With no row found, the sequence part is 0001. */
  lemma FirstNumber(nos: seq<string>, prefix: string)
    requires Latest(nos, prefix + "%") == None
    ensures Pow10(4) == 10000
    ensures NumberAfter(nos, prefix) == prefix + ZeroPad(1, 4)
  {
    Pow10Widths();
    assert ZeroPad(1, 4) == "0001" by {
      ValueLeadingZeros("000", "1");
      assert "000" + "1" == "0001";
    }
  }

  /** With a well-formed row found, the sequence part is one more than its own. */
  lemma FollowingNumber(nos: seq<string>, prefix: string, last: string)
    requires Latest(nos, prefix + "%") == Some(last) && NumberWith(last, prefix) && Sequence(last) <= 9998
    ensures Pow10(4) == 10000
    ensures NumberAfter(nos, prefix) == prefix + ZeroPad(Sequence(last) + 1, 4)
  {
    Pow10Widths();
    PhpToIntOfDigits(last[11..]);
  }

  lemma FreshWith(nos: seq<string>, prefix: string)
    requires PrefixShape(prefix)
    requires forall i :: 0 <= i < |nos| && IsPrefix(prefix, nos[i]) ==>
      NumberWith(nos[i], prefix) && Sequence(nos[i]) <= 9998
    ensures var r := NumberAfter(nos, prefix);
      && NumberWith(r, prefix)
      && (forall i :: 0 <= i < |nos| && IsPrefix(prefix, nos[i]) ==>
            NumberWith(nos[i], prefix) && LexLt(nos[i], r) && Sequence(nos[i]) < Sequence(r))
      && (Sequence(r) == 1 || exists i :: 0 <= i < |nos| && NumberWith(nos[i], prefix) && Sequence(r) == Sequence(nos[i]) + 1)
      && r !in nos
  {
    LatestWith(nos, prefix);
    var r := NumberAfter(nos, prefix);
    var latest := Latest(nos, prefix + "%");
    var n: nat;
    if latest.None? {
      n := 1;
      FirstNumber(nos, prefix);
    } else {
      var li :| 0 <= li < |nos| && nos[li] == latest.value;
      n := Sequence(nos[li]) + 1;
      FollowingNumber(nos, prefix, nos[li]);
    }
    NextInShape(prefix, n);
    forall i | 0 <= i < |nos| && IsPrefix(prefix, nos[i])
      ensures NumberWith(nos[i], prefix) && LexLt(nos[i], r) && Sequence(nos[i]) < Sequence(r)
    {
      NumberOrder(nos[i], latest.value, prefix);
      NumberOrder(nos[i], r, prefix);
    }
  }

  /** While today's numbers are well formed and below 9999, the next one is
      well formed, numbered one past the greatest (or 1), sorts above every
      number issued today, and so is not taken yet. */
  lemma NextIsFresh(nos: seq<string>, today: Date)
    requires forall i :: 0 <= i < |nos| && IsPrefix(DayPrefix(today), nos[i]) ==>
      IsDayNumber(nos[i], today) && Sequence(nos[i]) <= 9998
    ensures var r := GenerateOrderNumber(nos, today);
      && IsDayNumber(r, today)
      && (forall i :: 0 <= i < |nos| && IsPrefix(DayPrefix(today), nos[i]) ==>
            IsDayNumber(nos[i], today) && LexLt(nos[i], r) && Sequence(nos[i]) < Sequence(r))
      && (Sequence(r) == 1 || exists i :: 0 <= i < |nos| && IsDayNumber(nos[i], today) && Sequence(r) == Sequence(nos[i]) + 1)
      && r !in nos
  {
    FreshWith(nos, DayPrefix(today));
  }

  lemma Value9999()
    ensures AllDigits("9999") && Value("9999") == 9999
  {
    assert "9999"[..3] == "999" && "999"[..2] == "99" && "99"[..1] == "9" && "9"[..0] == "";
  }

  lemma Render10000()
    ensures IntToStr(10000) == "10000"
  {
    assert NatToStr(1) == "1";
    assert NatToStr(10) == "10";
    assert NatToStr(100) == "100";
    assert NatToStr(1000) == "1000";
  }

  lemma ContinuesAfterExponentWith(prefix: string)
    requires PrefixShape(prefix)
    ensures NumberAfter([prefix + "1e3"], prefix) == prefix + "1001"
  {
    var no := prefix + "1e3";
    LatestWith([no], prefix);
    assert no[..11] == prefix;
    assert Latest([no], prefix + "%") == Some(no);
    assert no[11..] == "1e3";
    Cast1e3();
    NumberAfterLatest([no], prefix, no);
    Render1001();
  }

  lemma Cast1e3()
    ensures PhpToInt("1e3") == 1000
  {
    assert "1" + "e" + "3" == "1e3";
    PhpToIntExponent("1", "3");
    assert Value("1") == 1 && Value("3") == 3 && Pow10(3) == 1000;
  }

  lemma Render1001()
    ensures PadLeft(IntToStr(1000 + 1), 4, '0') == "1001"
  {
    assert NatToStr(10) == "10";
    assert NatToStr(100) == "100";
    assert IntToStr(1001) == "1001";
  }

  /** The cast reads an exponent: a suffix "1e3" counts as 1000, so the
      next number ends in 1001. */
  lemma ContinuesAfterExponent(today: Date)
    ensures GenerateOrderNumber([DayPrefix(today) + "1e3"], today) == DayPrefix(today) + "1001"
  {
    ContinuesAfterExponentWith(DayPrefix(today));
  }

  lemma RepeatsWith(prefix: string)
    requires PrefixShape(prefix)
    ensures var nos := [prefix + "9999", prefix + "10000"];
      NumberAfter(nos, prefix) == nos[1]
  {
    var nos := [prefix + "9999", prefix + "10000"];
    LikePrefix(nos[0], prefix);
    LikePrefix(nos[1], prefix);
    assert nos[0][..11] == prefix && nos[1][..11] == prefix;
    LexLeCommonPrefix(prefix, "9999", "10000");
    assert !LexLe("9999", "10000");
    assert nos[1..] == [nos[1]];
    assert Latest(nos[1..], prefix + "%") == Some(nos[1]);
    assert Latest(nos, prefix + "%") == Some(nos[0]);
    assert nos[0][11..] == "9999";
    Value9999();
    PhpToIntOfDigits("9999");
    assert SuffixValue(nos[0]) == 9999;
    Render10000();
    assert PadLeft("10000", 4, '0') == "10000";
  }

  /** As written, the rule repeats a number once a day passes 9999 orders:
      10000 sorts below 9999, so 9999 stays the greatest and 10000 is issued again. */
  lemma RepeatsAfter9999(today: Date)
    ensures var nos := [DayPrefix(today) + "9999", DayPrefix(today) + "10000"];
      GenerateOrderNumber(nos, today) == nos[1]
  {
    RepeatsWith(DayPrefix(today));
  }
}
