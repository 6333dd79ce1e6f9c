/** Churn metrics of a loaded table (`calcular_churn`). */
module Churn {
  import opened Table

  /** The status value that marks a canceled subscription; compared exactly,
      so "Cancelado" or "cancelado " are not canceled. */
  const Cancelado: string := "cancelado"

  /** The three figures the dashboard shows: the churn rate, the number of
      canceled subscriptions and the number of all subscriptions. */
  datatype Metrics = Metrics(churnRate: real, cancelados: nat, total: nat)

  /** `calcular_churn`: canceled rows over all rows, and an explicit zero
      rate for an empty table instead of a division by zero. */
  function CalcularChurn(df: seq<Row>): (m: Metrics)
    ensures m.total == |df|
    ensures m.cancelados <= m.total
    ensures 0.0 <= m.churnRate <= 1.0
    ensures m.total == 0 ==> m.churnRate == 0.0
    ensures m.total > 0 ==> m.churnRate * (m.total as real) == m.cancelados as real
  {
    var cancelados := Count(Estados(df), Value(Cancelado));
    var total := |df|;
    if total > 0 then
      RatioBounds(cancelados, total);
      Metrics(cancelados as real / total as real, cancelados, total)
    else
      Metrics(0.0, cancelados, total)
  }

  /** A part over a non-empty whole is a fraction in [0,1] that scales back to the part. */
  lemma RatioBounds(part: nat, whole: nat)
    requires part <= whole && whole > 0
    ensures 0.0 <= part as real / whole as real <= 1.0
    ensures (part as real / whole as real) * (whole as real) == part as real
  {
  }

  /** The canceled count is the number of rows whose status is exactly
      "cancelado". */
  lemma CanceledAreExactMatches(df: seq<Row>)
    ensures CalcularChurn(df).cancelados == |Positions(Estados(df), Value(Cancelado))|
    ensures CalcularChurn(df).cancelados == |set i | 0 <= i < |df| && df[i].estado == Value(Cancelado)|
  {
    var col := Estados(df);
    CountIsPositions(col, Value(Cancelado));
    assert Positions(col, Value(Cancelado)) == set i | 0 <= i < |df| && df[i].estado == Value(Cancelado);
  }

  /** A part over a non-empty whole is one exactly when the part is the whole. */
  lemma RatioIsOne(part: nat, whole: nat)
    requires part <= whole && whole > 0
    ensures part as real / whole as real == 1.0 <==> part == whole
  {
    RatioBounds(part, whole);
  }

  /** Every row is either canceled or not: the two counts add up to the total. */
  lemma CanceledPlusRemaining(df: seq<Row>)
    ensures CalcularChurn(df).cancelados + |Without(Estados(df), Value(Cancelado))| == CalcularChurn(df).total
  {
    CountPlusWithout(Estados(df), Value(Cancelado));
  }

  /** The rate is zero exactly when no row is canceled. */
  lemma RateZeroIffNoneCanceled(df: seq<Row>)
    ensures CalcularChurn(df).churnRate == 0.0 <==> Value(Cancelado) !in Estados(df)
  {
    var m := CalcularChurn(df);
    if m.total > 0 && m.churnRate == 0.0 {
      assert m.cancelados as real == 0.0 * (m.total as real);
    }
  }

  /** The rate is one exactly when the table is not empty and every row is
      canceled. */
  lemma RateOneIffAllCanceled(df: seq<Row>)
    ensures CalcularChurn(df).churnRate == 1.0 <==> df != [] && Without(Estados(df), Value(Cancelado)) == []
  {
    var m := CalcularChurn(df);
    CountPlusWithout(Estados(df), Value(Cancelado));
    if m.total > 0 {
      RatioIsOne(m.cancelados, m.total);
    }
  }

  /** A table of ten rows of which four are canceled has a 40% churn rate. */
  lemma TenRowsFourCanceled(df: seq<Row>)
    requires |df| == 10
    requires |set i | 0 <= i < |df| && df[i].estado == Value(Cancelado)| == 4
    ensures CalcularChurn(df) == Metrics(0.4, 4, 10)
  {
    CanceledAreExactMatches(df);
  }

  /** The empty table gives zero everywhere, without a division error. */
  lemma EmptyTable()
    ensures CalcularChurn([]) == Metrics(0.0, 0, 0)
  {
  }
}
