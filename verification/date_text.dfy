/**
 * The text forms the calendar's selection handler works with: the decimal
 * rendering of a number inside a template literal, the `month-day-year`
 * entry built for one selected date, and the selection string in which every
 * entry is followed by a comma.
 */
module DateText {

  datatype Option<T> = None | Some(value: T)

  /** The `{ day, month, year }` detail carried by a `dateselected` event. */
  datatype DateDetail = DateDetail(day: nat, month: nat, year: nat)

  predicate IsDigit(c: char) {
    '0' <= c <= '9'
  }

  predicate AllDigits(s: string) {
    forall i :: 0 <= i < |s| ==> IsDigit(s[i])
  }

  function DigitChar(d: nat): (c: char)
    requires d < 10
    ensures IsDigit(c)
  {
    ('0' as int + d) as char
  }

  function DigitValue(c: char): (d: nat)
    requires IsDigit(c)
    ensures d < 10
  {
    c as int - '0' as int
  }

  /**
   * The decimal text of a natural number, as `${n}` renders an
   * integer-valued number below 2^53 (every day, month and year of a
   * calendar date): digits only, and a leading `0` only for zero.
   */
  function NatToString(n: nat): (r: string)
    ensures r != [] && AllDigits(r)
    ensures r[0] == '0' <==> n == 0
    ensures n == 0 ==> r == "0"
    decreases n
  {
    if n < 10 then [DigitChar(n)] else NatToString(n / 10) + [DigitChar(n % 10)]
  }

  /** The value of a string of decimal digits (the inverse of NatToString). */
  function StringToNat(s: string): nat
    requires AllDigits(s)
  {
    if s == [] then 0 else StringToNat(s[..|s| - 1]) * 10 + DigitValue(s[|s| - 1])
  }

  lemma {:induction false} NatToStringRoundTrip(n: nat)
    ensures StringToNat(NatToString(n)) == n
    decreases n
  {
    if n >= 10 {
      var r := NatToString(n);
      assert r[..|r| - 1] == NatToString(n / 10);
      NatToStringRoundTrip(n / 10);
    }
  }

  lemma NatToStringInjective(a: nat, b: nat)
    ensures NatToString(a) == NatToString(b) <==> a == b
  {
    NatToStringRoundTrip(a);
    NatToStringRoundTrip(b);
  }

  /** The position of the first `c` in `s`. */
  function IndexOf(s: string, c: char): (i: nat)
    requires c in s
    ensures i < |s| && s[i] == c && c !in s[..i]
  {
    if s[0] == c then 0
    else
      var k := IndexOf(s[1..], c);
      assert s[..k + 1] == [s[0]] + s[1..][..k];
      k + 1
  }

  lemma IndexOfAfter(prefix: string, c: char, rest: string)
    requires c !in prefix
    ensures IndexOf(prefix + [c] + rest, c) == |prefix|
  {
    var s := prefix + [c] + rest;
    assert s[..|prefix|] == prefix && s[|prefix|] == c;
  }

  lemma NonDigitNotIn(s: string, c: char)
    requires AllDigits(s) && !IsDigit(c)
    ensures c !in s
  {
  }

  /**
   * The entry recorded for a selected date: month, day and year in that
   * order, each in decimal, joined by `-`.
   */
  function DateString(d: DateDetail): (r: string)
    ensures ',' !in r && r != []
  {
    var m, dd, y := NatToString(d.month), NatToString(d.day), NatToString(d.year);
    NonDigitNotIn(m, ','); NonDigitNotIn(dd, ','); NonDigitNotIn(y, ',');
    m + "-" + dd + "-" + y
  }

  /** Reads an entry back into the date it was built from. */
  function ParseDate(s: string): Option<DateDetail> {
    if '-' !in s then None
    else
      var i := IndexOf(s, '-');
      var rest := s[i + 1..];
      if '-' !in rest then None
      else
        var j := IndexOf(rest, '-');
        var m, dd, y := s[..i], rest[..j], rest[j + 1..];
        if m != [] && dd != [] && y != [] && AllDigits(m) && AllDigits(dd) && AllDigits(y)
        then Some(DateDetail(StringToNat(dd), StringToNat(m), StringToNat(y)))
        else None
  }

  lemma DateStringRoundTrip(d: DateDetail)
    ensures ParseDate(DateString(d)) == Some(d)
  {
    var m, dd, y := NatToString(d.month), NatToString(d.day), NatToString(d.year);
    NonDigitNotIn(m, '-');
    NonDigitNotIn(dd, '-');
    var s := DateString(d);
    var rest := dd + "-" + y;
    assert s == m + ['-'] + rest;
    IndexOfAfter(m, '-', rest);
    assert s[..|m|] == m && s[|m| + 1..] == rest;
    IndexOfAfter(dd, '-', y);
    assert rest[..|dd|] == dd && rest[|dd| + 1..] == y;
    NatToStringRoundTrip(d.month);
    NatToStringRoundTrip(d.day);
    NatToStringRoundTrip(d.year);
  }

  /** Two selected dates give the same entry exactly when they are the same date. */
  lemma DateStringInjective(a: DateDetail, b: DateDetail)
    ensures DateString(a) == DateString(b) <==> a == b
  {
    DateStringRoundTrip(a);
    DateStringRoundTrip(b);
  }

  /**
   * The entries of a selection string, in order: the text before each comma,
   * and an unterminated tail as one more entry.
   */
  function Entries(s: string): (r: seq<string>)
    ensures forall k :: 0 <= k < |r| ==> ',' !in r[k]
    ensures r == [] <==> s == []
    decreases |s|
  {
    if s == [] then []
    else if ',' !in s then [s]
    else
      var i := IndexOf(s, ',');
      [s[..i]] + Entries(s[i + 1..])
  }

  /** Writes a list of entries with a comma after each one. */
  function Serialize(entries: seq<string>): string {
    if entries == [] then "" else entries[0] + "," + Serialize(entries[1..])
  }

  predicate NoCommas(entries: seq<string>) {
    forall k :: 0 <= k < |entries| ==> ',' !in entries[k]
  }

  /** Splitting a serialized list gives back its entries, in order. */
  lemma {:induction false} EntriesOfSerialize(entries: seq<string>)
    requires NoCommas(entries)
    ensures Entries(Serialize(entries)) == entries
    decreases |entries|
  {
    if entries != [] {
      var tail := Serialize(entries[1..]);
      assert Serialize(entries) == entries[0] + [','] + tail;
      IndexOfAfter(entries[0], ',', tail);
      var s := Serialize(entries);
      assert s[..|entries[0]|] == entries[0] && s[|entries[0]| + 1..] == tail;
      EntriesOfSerialize(entries[1..]);
    }
  }

  lemma {:induction false} SerializeAppend(entries: seq<string>, e: string)
    ensures Serialize(entries + [e]) == Serialize(entries) + e + ","
    decreases |entries|
  {
    if entries != [] {
      assert (entries + [e])[1..] == entries[1..] + [e];
      SerializeAppend(entries[1..], e);
    }
  }

  /** A selection string in which every entry, the last included, ends with a comma. */
  predicate WellFormed(s: string) {
    s == Serialize(Entries(s))
  }

  /** A selection string is well formed exactly when it is empty or ends with a comma. */
  lemma {:induction false} WellFormedIff(s: string)
    ensures WellFormed(s) <==> (s == [] || s[|s| - 1] == ',')
    decreases |s|
  {
    if s != [] {
      if ',' !in s {
        assert Serialize(Entries(s)) == s + ",";
      } else {
        var i := IndexOf(s, ',');
        var rest := s[i + 1..];
        WellFormedIff(rest);
        assert s == s[..i] + [','] + rest;
        if s[|s| - 1] == ',' {
          assert rest == [] || rest[|rest| - 1] == ',';
        } else {
          assert rest != Serialize(Entries(rest));
          var t := Serialize(Entries(s));
          assert t == s[..i] + [','] + Serialize(Entries(rest));
          assert t[i + 1..] != s[i + 1..];
        }
      }
    }
  }
}
