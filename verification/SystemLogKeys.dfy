/** Row keys of the system log (shared/system_logger.py): a reversed
    millisecond timestamp, so that the table's order is newest first. */
module SystemLogKeys {
  import opened KeyOrder
  import opened Decimal
  import opened Strings

  const CEILING: int := 9_999_999_999_999
  const LATEST: int := 8_999_999_999_999

  function ReverseTimestamp(timestampMs: int): string {
    Str(CEILING - timestampMs)
  }

  function RowKey(timestampMs: int, eventId: string): string {
    ReverseTimestamp(timestampMs) + "_" + eventId
  }

  /** In the table's order, the later event stands first. */
  predicate NewerFirst(earlier: int, later: int, earlierId: string, laterId: string) {
    Less(Codes(RowKey(later, laterId)), Codes(RowKey(earlier, earlierId)))
  }

  lemma KeyCodes(t: int, id: string)
    ensures Codes(RowKey(t, id)) == Codes(ReverseTimestamp(t)) + Codes("_" + id)
  {
    assert RowKey(t, id) == ReverseTimestamp(t) + ("_" + id);
    CodesConcat(ReverseTimestamp(t), "_" + id);
  }

  lemma NewestFirst(earlier: int, later: int, earlierId: string, laterId: string)
    requires 0 <= earlier < later <= LATEST
    ensures NewerFirst(earlier, later, earlierId, laterId)
  {
    ScaledValues();
    LengthOfDigits(CEILING - earlier, 13);
    LengthOfDigits(CEILING - later, 13);
    DigitsKeepOrder(CEILING - later, CEILING - earlier);
    KeyCodes(earlier, earlierId);
    KeyCodes(later, laterId);
    LessExtends(Codes(ReverseTimestamp(later)), Codes(ReverseTimestamp(earlier)),
                Codes("_" + laterId), Codes("_" + earlierId));
  }

  lemma {:induction false} FirstDigit(n: nat, k: nat, d: nat)
    requires 0 < d < 10 && Scaled(d, k) <= n < Scaled(d + 1, k)
    ensures Digits(n)[0] == DigitChar(d)
  {
    if k > 0 {
      ScaledIsPositive(d, k - 1);
      FirstDigit(n / 10, k - 1, d);
    }
  }

  lemma {:induction false} ScaledIsPositive(d: nat, k: nat)
    requires d > 0
    ensures Scaled(d, k) > 0
  {
    if k > 0 { ScaledIsPositive(d, k - 1); }
  }

  lemma ScaledValues()
    ensures Scaled(1, 12) == 1_000_000_000_000 && Scaled(1, 13) == 10_000_000_000_000
    ensures Scaled(2, 12) == 2_000_000_000_000
    ensures Scaled(9, 11) == 900_000_000_000 && Scaled(10, 11) == 1_000_000_000_000
  {
    assert Scaled(1, 4) == 10_000 && Scaled(1, 8) == 100_000_000;
    assert Scaled(2, 4) == 20_000 && Scaled(2, 8) == 200_000_000;
    assert Scaled(9, 4) == 90_000 && Scaled(9, 8) == 900_000_000;
    assert Scaled(10, 4) == 100_000 && Scaled(10, 8) == 1_000_000_000;
  }

  /** One millisecond past LATEST the number loses its leading digit, and
      because it is not padded its key jumps to the end. */
  lemma OneTooLate(earlierId: string, laterId: string)
    ensures !NewerFirst(LATEST, LATEST + 1, earlierId, laterId)
  {
    ScaledValues();
    FirstDigit(1_000_000_000_000, 12, 1);
    FirstDigit(999_999_999_999, 11, 9);
    KeyCodes(LATEST, earlierId);
    KeyCodes(LATEST + 1, laterId);
    assert Codes(RowKey(LATEST, earlierId))[0] == '1' as int;
    assert Codes(RowKey(LATEST + 1, laterId))[0] == '9' as int;
  }

  /** Up to which time the log is in newest-first order, exactly. */
  lemma NewestFirstIff(bound: int)
    ensures
      (forall earlier, later, earlierId, laterId :: 0 <= earlier < later <= bound ==>
        NewerFirst(earlier, later, earlierId, laterId))
      <==> bound <= LATEST
  {
    if bound <= LATEST {
      forall earlier, later, earlierId, laterId | 0 <= earlier < later <= bound
        ensures NewerFirst(earlier, later, earlierId, laterId)
      {
        NewestFirst(earlier, later, earlierId, laterId);
      }
    } else {
      OneTooLate("", "");
    }
  }

  /** A key tells its event: no two events with different time or id share
      one. */
  lemma RowKeyIsInjective(t: int, id: string, t': int, id': string)
    requires RowKey(t, id) == RowKey(t', id')
    ensures t == t' && id == id'
  {
    KeyFront(t, id);
    KeyFront(t', id');
    StrIsInjective(CEILING - t, CEILING - t');
    assert id == RowKey(t, id)[|ReverseTimestamp(t)| + 1..];
    assert id' == RowKey(t', id')[|ReverseTimestamp(t')| + 1..];
  }

  lemma KeyFront(t: int, id: string)
    ensures Split(RowKey(t, id), '_')[0] == ReverseTimestamp(t)
  {
    NoUnderscore(CEILING - t);
    assert RowKey(t, id) == ReverseTimestamp(t) + ("_" + id);
    SplitAfter(ReverseTimestamp(t), "_" + id, '_');
    assert ReverseTimestamp(t) + "" == ReverseTimestamp(t);
  }

  lemma NoUnderscore(n: int)
    ensures '_' !in Str(n)
  {
  }
}
