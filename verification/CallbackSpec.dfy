// The header form of a callback (core/include/jericho/message/callback2.h).
module CallbackSpec {
  import opened Common
  import opened JsonText
  import opened BifrostSpec

  predicate IsInt(n: int) { -0x8000_0000 <= n < 0x8000_0000 }

  // isspace in the C locale.
  predicate IsBlank(c: char) { c == ' ' || 9 <= c as int <= 13 }

  function SkipBlanks(s: string): string
  {
    if |s| > 0 && IsBlank(s[0]) then SkipBlanks(s[1..]) else s
  }

  // std::stoi; None stands for its exceptions.
  function Stoi(s: string): Option<int>
  {
    var t := SkipBlanks(s);
    var start := SignLength(t, 0);
    var end := DigitsEnd(t, start);
    if end == start then None
    else
      var magnitude: int := DigitsValue(t[start..end]);
      var n := if t[0] == '-' then -magnitude else magnitude;
      if IsInt(n) then Some(n) else None
  }

  lemma StoiDecimal(n: int)
    requires IsInt(n)
    ensures Stoi(Decimal(n)) == Some(n)
  {
    var t := Decimal(n);
    var start := if n < 0 then 1 else 0;
    var digits := DigitsOf(if n < 0 then -n else n);
    assert SkipBlanks(t) == t;
    assert t[start..] == digits;
    DigitsRoundTrip(if n < 0 then -n else n);
    assert SignLength(t, 0) == start;
    DigitsEndAt(t, start, |t|);
    assert t[start..|t|] == digits;
  }

  // std::to_string of a bool.
  function FlagText(b: bool): string { if b then "1" else "0" }

  function CallbackHeaders(cb: Callback): map<string, string>
  {
    map["Callback-Url" := cb.url, "Callback-Endpoint" := cb.endpoint, "Callback-Type" := cb.kind,
        "Callback-Satellite" := FlagText(cb.satellite), "Callback-Fn" := cb.fn,
        "Callback-Count" := Decimal(cb.count), "Callback-Limit" := Decimal(cb.limit),
        "Callback-Resolved" := FlagText(cb.resolved)]
  }

  // operator[] of an unordered_map, which yields the empty string for a missing key.
  function Get(m: map<string, string>, key: string): string
  {
    if key in m then m[key] else ""
  }

  // The constructor from a map.
  function ReadCallback(m: map<string, string>): Option<Callback>
  {
    match (Stoi(Get(m, "Callback-Satellite")), Stoi(Get(m, "Callback-Count")), Stoi(Get(m, "Callback-Limit")))
    case (Some(satellite), Some(count), Some(limit)) =>
      Some(Callback(Get(m, "Callback-Url"), Get(m, "Callback-Endpoint"), Get(m, "Callback-Type"), satellite != 0,
                    Get(m, "Callback-Fn"), count, limit, Get(m, "Callback-Resolved") == "1"))
    case _ => None
  }

  lemma StoiFlag(b: bool)
    ensures Stoi(FlagText(b)) == Some(if b then 1 else 0)
  {
    StoiDecimal(if b then 1 else 0);
    assert Decimal(0) == "0" && Decimal(1) == "1";
  }

  // Reading the headers of a callback gives the callback back, whatever other headers there are.
  lemma CallbackRoundTrip(cb: Callback, others: map<string, string>)
    requires IsInt(cb.count) && IsInt(cb.limit)
    ensures ReadCallback(others + CallbackHeaders(cb)) == Some(cb)
  {
    hide Stoi, FlagText, Decimal;
    StoiDecimal(cb.count);
    StoiDecimal(cb.limit);
    StoiFlag(cb.satellite);
    FlagTexts();
    var m := others + CallbackHeaders(cb);
    var h := CallbackHeaders(cb);
    assert h["Callback-Url"] == cb.url && h["Callback-Endpoint"] == cb.endpoint && h["Callback-Type"] == cb.kind;
    assert h["Callback-Satellite"] == FlagText(cb.satellite) && h["Callback-Fn"] == cb.fn;
    assert h["Callback-Count"] == Decimal(cb.count) && h["Callback-Limit"] == Decimal(cb.limit);
    assert h["Callback-Resolved"] == FlagText(cb.resolved);
  }

  lemma FlagTexts()
    ensures FlagText(true) == "1" && FlagText(false) != "1"
  {
    assert FlagText(false)[0] != "1"[0];
  }

  // Each header tells one field.
  lemma HeadersExample()
    ensures ReadCallback(map["Callback-Url" := "u", "Callback-Endpoint" := "/e", "Callback-Type" := "t",
                             "Callback-Satellite" := "1", "Callback-Fn" := "f", "Callback-Count" := "3",
                             "Callback-Limit" := "-4", "Callback-Resolved" := "1"])
         == Some(Callback("u", "/e", "t", true, "f", 3, -4, true))
  {
    SmallTexts();
    hide Stoi;
  }

  lemma SmallTexts()
    ensures Stoi("1") == Some(1) && Stoi("3") == Some(3) && Stoi("-4") == Some(-4)
  {
    StoiDecimal(1);
    StoiDecimal(3);
    StoiDecimal(-4);
    hide Stoi;
    assert Decimal(1) == "1" && Decimal(3) == "3" && Decimal(-4) == "-4";
  }

  // ---------------------------------------------------------------- std::stoi

  lemma {:induction false} BlanksSkipped(blanks: string, t: string)
    requires forall i | 0 <= i < |blanks| :: blanks[i] as int in {32, 9, 10, 11, 12, 13}
    requires t == "" || t[0] as int !in {32, 9, 10, 11, 12, 13}
    ensures SkipBlanks(blanks + t) == t
    decreases |blanks|
  {
    if blanks == "" {
      assert blanks + t == t;
    } else {
      assert (blanks + t)[1..] == blanks[1..] + t;
      BlanksSkipped(blanks[1..], t);
    }
  }

  // Leading space, a sign, digits, and anything that does not go on with a digit: the number, if it is an int.
  lemma StoiReads(blanks: string, sign: string, digits: string, tail: string)
    requires forall i | 0 <= i < |blanks| :: blanks[i] as int in {32, 9, 10, 11, 12, 13}
    requires sign == "" || sign == "+" || sign == "-"
    requires digits != "" && forall i | 0 <= i < |digits| :: '0' <= digits[i] <= '9'
    requires tail == "" || !('0' <= tail[0] <= '9')
    ensures var n := if sign == "-" then -(DigitsValue(digits) as int) else DigitsValue(digits);
            Stoi(blanks + (sign + (digits + tail)))
            == if -0x8000_0000 <= n < 0x8000_0000 then Some(n) else None
  {
    hide *;
    var t := sign + (digits + tail);
    FirstCharacters(t, sign, digits, tail);
    BlanksSkipped(blanks, t);
    SignAndDigits(t, sign, digits, tail);
    StoiAt(blanks + t, t, |sign|, |sign| + |digits|);
  }

  lemma StoiAt(s: string, t: string, start: nat, end: nat)
    requires SkipBlanks(s) == t && SignLength(t, 0) == start && DigitsEnd(t, start) == end && start < end
    ensures forall k | start <= k < end :: IsDigit(t[k])
    ensures var n := if t[0] == '-' then -(DigitsValue(t[start..end]) as int) else DigitsValue(t[start..end]);
            Stoi(s) == if -0x8000_0000 <= n < 0x8000_0000 then Some(n) else None
  {
    hide DigitsValue, SkipBlanks;
  }

  lemma FirstCharacters(t: string, sign: string, digits: string, tail: string)
    requires t == sign + (digits + tail) && (sign == "" || sign == "+" || sign == "-") && digits != ""
    requires forall i | 0 <= i < |digits| :: '0' <= digits[i] <= '9'
    ensures t[0] as int !in {32, 9, 10, 11, 12, 13} && (t[0] == '-' <==> sign == "-")
  {
    assert t[0] == if sign == "" then digits[0] else sign[0];
  }

  lemma SignAndDigits(t: string, sign: string, digits: string, tail: string)
    requires t == sign + (digits + tail) && (sign == "" || sign == "+" || sign == "-")
    requires digits != "" && forall i | 0 <= i < |digits| :: '0' <= digits[i] <= '9'
    requires tail == "" || !('0' <= tail[0] <= '9')
    ensures SignLength(t, 0) == |sign| && DigitsEnd(t, |sign|) == |sign| + |digits|
    ensures t[|sign|..|sign| + |digits|] == digits
  {
    hide DigitsEnd;
    var (i, j) := (|sign|, |sign| + |digits|);
    Parts(sign, digits + tail);
    SplitAt(t, i, digits, tail);
    forall k | i <= k < j
      ensures IsDigit(t[k])
    {
      assert t[k] == t[i..j][k - i];
    }
    assert j < |t| ==> t[j] == t[j..][0] == tail[0];
    DigitsEndAt(t, i, j);
    assert t[0] == if sign == "" then digits[0] else sign[0];
  }

  // Without a digit behind space and sign there is no number.
  lemma StoiRefuses(blanks: string, sign: string, tail: string)
    requires forall i | 0 <= i < |blanks| :: blanks[i] as int in {32, 9, 10, 11, 12, 13}
    requires sign == "" || sign == "+" || sign == "-"
    requires tail == "" || (!('0' <= tail[0] <= '9') && (sign == "" ==> tail[0] != '+' && tail[0] != '-')
                            && (sign == "" ==> tail[0] as int !in {32, 9, 10, 11, 12, 13}))
    ensures Stoi(blanks + (sign + tail)) == None
  {
    var t := sign + tail;
    assert sign != "" ==> t[0] == sign[0];
    assert sign == "" ==> t == tail;
    BlanksSkipped(blanks, t);
    assert |t| > |sign| ==> t[|sign|] == tail[0];
  }
}
