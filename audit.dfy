/**
 * The suspicious-transaction check of the audit report test: the
 * transaction ids of the data rows whose risk level is HIGH or CRITICAL,
 * and the mock audit data it runs on.
 */
module Audit {
  import opened Options

  /** Reading `row[7]` of a row with fewer than eight columns throws
      `ArrayIndexOutOfBoundsException`; `row` is the index in the data. */
  datatype AuditError = ShortRow(row: nat)

  /** `"HIGH".equals(riskLevel) || "CRITICAL".equals(riskLevel)`. */
  predicate Flagged(riskLevel: string) {
    riskLevel == "HIGH" || riskLevel == "CRITICAL"
  }

  /** The ids collected from the data rows `1 <= i < n`, in row order, or the
      first row too short to have a risk level. */
  function SuspiciousUpTo(data: seq<seq<string>>, n: nat): Result<seq<string>, AuditError>
    requires n <= |data|
  {
    if n <= 1 then Success([])
    else
      match SuspiciousUpTo(data, n - 1)
      case Failure(e) => Failure(e)
      case Success(ids) =>
        var row := data[n - 1];
        if |row| < 8 then Failure(ShortRow(n - 1))
        else Success(ids + if Flagged(row[7]) then [row[0]] else [])
  }

  /** The suspicious transactions of the whole data set. */
  function Suspicious(data: seq<seq<string>>): Result<seq<string>, AuditError> {
    SuspiciousUpTo(data, |data|)
  }

  /** The loop of `testSuspiciousTransactionDetection`. */
  method DetectSuspicious(data: seq<seq<string>>) returns (r: Result<seq<string>, AuditError>)
    ensures r == Suspicious(data)
  {
    var suspicious: seq<string> := [];
    if |data| <= 1 {
      assert Suspicious(data).value == [];
      return Success([]);
    }
    for i := 1 to |data|
      invariant SuspiciousUpTo(data, i).Success? && SuspiciousUpTo(data, i).value == suspicious
    {
      var row := data[i];
      if |row| < 8 {
        ShortRowStops(data, i + 1, |data|);
        return Failure(ShortRow(i));
      }
      var riskLevel := row[7];
      if riskLevel == "HIGH" || riskLevel == "CRITICAL" {
        suspicious := suspicious + [row[0]];
      }
    }
    assert Suspicious(data).value == suspicious;
    return Success(suspicious);
  }

  /** A failure stays a failure as more rows are read. */
  lemma {:induction false} ShortRowStops(data: seq<seq<string>>, n: nat, m: nat)
    requires n <= m <= |data| && SuspiciousUpTo(data, n).Failure?
    ensures SuspiciousUpTo(data, m) == SuspiciousUpTo(data, n)
    decreases m - n
  {
    if n < m {
      ShortRowStops(data, n, m - 1);
    }
  }

  /** Every data row with at least eight columns. */
  predicate WellFormed(data: seq<seq<string>>) {
    forall i :: 1 <= i < |data| ==> |data[i]| >= 8
  }

  /** The check fails iff some data row is too short. */
  lemma {:induction false} SuspiciousFails(data: seq<seq<string>>, n: nat)
    requires n <= |data|
    ensures SuspiciousUpTo(data, n).Failure? <==> exists i :: 1 <= i < n && |data[i]| < 8
    decreases n
  {
    if n > 1 {
      SuspiciousFails(data, n - 1);
    }
  }

  /** Of well-formed data, an id is collected iff some data row with that id
      is flagged. */
  lemma {:induction false} SuspiciousMembers(data: seq<seq<string>>, n: nat, id: string)
    requires n <= |data| && WellFormed(data)
    ensures SuspiciousUpTo(data, n).Success?
    ensures id in SuspiciousUpTo(data, n).value <==>
      exists i :: 1 <= i < n && data[i][0] == id && Flagged(data[i][7])
    decreases n
  {
    if n > 1 {
      SuspiciousMembers(data, n - 1, id);
    }
  }

  /** The header row is never read: any header gives the same outcome. */
  lemma {:induction false} HeaderIgnored(data: seq<seq<string>>, header: seq<string>, n: nat)
    requires 1 <= n <= |data|
    ensures SuspiciousUpTo([header] + data[1..], n) == SuspiciousUpTo(data, n)
    decreases n
  {
    if n > 1 {
      HeaderIgnored(data, header, n - 1);
      assert ([header] + data[1..])[n - 1] == data[n - 1];
    }
  }

  /** At most one id per data row. */
  lemma {:induction false} SuspiciousLength(data: seq<seq<string>>, n: nat)
    requires 1 <= n <= |data| && SuspiciousUpTo(data, n).Success?
    ensures |SuspiciousUpTo(data, n).value| <= n - 1
    decreases n
  {
    if n > 1 {
      SuspiciousLength(data, n - 1);
    }
  }

  /** The header of the mock audit data. */
  const Header: seq<string> :=
    ["Transaction ID", "Timestamp", "User ID", "Action", "Amount", "Currency", "IP Address", "Risk Level", "Status"]

  /** `generateMockAuditData`, with the ten formatted timestamps passed in
      (they depend on the clock). */
  function MockAuditData(t: seq<string>): (data: seq<seq<string>>)
    requires |t| == 10
    ensures |data| == 11
  {
    [Header,
     ["TXN-200001", t[0], "USR-1001", "TRADE_EXECUTION", "150000.00", "USD", "192.168.1.100", "LOW", "APPROVED"],
     ["TXN-200002", t[1], "USR-1002", "TRADE_MODIFICATION", "250000.00", "EUR", "192.168.1.101", "MEDIUM", "APPROVED"],
     ["TXN-200003", t[2], "USR-1003", "TRADE_CANCELLATION", "75000.00", "GBP", "192.168.1.102", "HIGH", "FLAGGED"],
     ["TXN-200004", t[3], "USR-1001", "TRADE_EXECUTION", "500000.00", "USD", "10.20.30.40", "CRITICAL", "UNDER_REVIEW"],
     ["TXN-200005", t[4], "USR-1001", "TRADE_EXECUTION", "525000.00", "USD", "10.20.30.40", "CRITICAL", "UNDER_REVIEW"],
     ["TXN-200006", t[5], "USR-1004", "TRADE_EXECUTION", "125000.00", "CHF", "192.168.1.103", "LOW", "APPROVED"],
     ["TXN-200007", t[6], "USR-1005", "SETTLEMENT_OVERRIDE", "300000.00", "USD", "192.168.1.104", "HIGH", "FLAGGED"],
     ["TXN-200008", t[7], "USR-1002", "TRADE_EXECUTION", "175000.00", "EUR", "192.168.1.101", "LOW", "APPROVED"],
     ["TXN-200009", t[8], "USR-1006", "TRADE_EXECUTION", "225000.00", "USD", "192.168.1.105", "MEDIUM", "APPROVED"],
     ["TXN-200010", t[9], "USR-UNKNOWN", "UNAUTHORIZED_ACCESS", "0.00", "USD", "203.0.113.42", "CRITICAL", "BLOCKED"]]
  }

  /** The header and every data row have nine columns. */
  lemma MockColumns(t: seq<string>)
    requires |t| == 10
    ensures forall i :: 0 <= i < 11 ==> |MockAuditData(t)[i]| == 9
    ensures MockAuditData(t)[0] == Header
  {
  }

  /** One more well-formed row adds its id iff it is flagged. */
  lemma SuspiciousStep(data: seq<seq<string>>, n: nat)
    requires 2 <= n <= |data| && |data[n - 1]| >= 8
    requires SuspiciousUpTo(data, n - 1).Success?
    ensures SuspiciousUpTo(data, n).Success?
    ensures SuspiciousUpTo(data, n).value == SuspiciousUpTo(data, n - 1).value +
      if Flagged(data[n - 1][7]) then [data[n - 1][0]] else []
  {
  }

  /** The check finds five suspicious transactions in the mock data. */
  lemma MockSuspicious(t: seq<string>)
    requires |t| == 10
    ensures Suspicious(MockAuditData(t)) ==
      Success(["TXN-200003", "TXN-200004", "TXN-200005", "TXN-200007", "TXN-200010"])
  {
    var d := MockAuditData(t);
    MockColumns(t);
    assert SuspiciousUpTo(d, 1) == Success([]);
    SuspiciousStep(d, 2);
    assert SuspiciousUpTo(d, 2).value == [];
    SuspiciousStep(d, 3);
    assert SuspiciousUpTo(d, 3).value == [];
    SuspiciousStep(d, 4);
    assert SuspiciousUpTo(d, 4).value == ["TXN-200003"];
    SuspiciousStep(d, 5);
    assert SuspiciousUpTo(d, 5).value == ["TXN-200003", "TXN-200004"];
    SuspiciousStep(d, 6);
    assert SuspiciousUpTo(d, 6).value == ["TXN-200003", "TXN-200004", "TXN-200005"];
    SuspiciousStep(d, 7);
    assert SuspiciousUpTo(d, 7).value == ["TXN-200003", "TXN-200004", "TXN-200005"];
    SuspiciousStep(d, 8);
    assert SuspiciousUpTo(d, 8).value == ["TXN-200003", "TXN-200004", "TXN-200005", "TXN-200007"];
    SuspiciousStep(d, 9);
    assert SuspiciousUpTo(d, 9).value == ["TXN-200003", "TXN-200004", "TXN-200005", "TXN-200007"];
    SuspiciousStep(d, 10);
    assert SuspiciousUpTo(d, 10).value == ["TXN-200003", "TXN-200004", "TXN-200005", "TXN-200007"];
    SuspiciousStep(d, 11);
    assert SuspiciousUpTo(d, 11).value == ["TXN-200003", "TXN-200004", "TXN-200005", "TXN-200007", "TXN-200010"];
  }
}
