/**
 * `create_stat_cell`: the table cell of one stat of one player. The cell
 * reads column `metric` (season) or `metric_suffix` (last 7 or 14 days),
 * defaulting to 0; its sort order is the number itself, or for a percentage
 * text the number with its '%' stripped; it is hidden unless visible.
 */
module StatCells {
  import opened Wrappers
  import opened Text
  import opened PlayerTable

  /** `f"{metric}_{suffix}" if suffix else metric`. */
  function ColumnKey(metric: string, suffix: string): (k: string)
    ensures suffix != "" ==> |k| == |metric| + 1 + |suffix|
    ensures |k| >= |metric| && k[..|metric|] == metric
  {
    if suffix == "" then metric else metric + "_" + suffix
  }

  /** A suffixed key splits back on '_' into its metric and suffix, when neither holds a '_'. */
  lemma ColumnKeySplits(metric: string, suffix: string)
    requires suffix != "" && '_' !in metric && '_' !in suffix
    ensures Split(ColumnKey(metric, suffix), '_') == [metric, suffix]
  {
    assert ColumnKey(metric, suffix) == metric + ['_'] + suffix;
    SplitFirstToken(metric, '_', suffix);
    SplitNoSeparator(suffix, '_');
  }

  /** Different (metric, suffix) pairs read different columns, for metrics and suffixes without '_'. */
  lemma ColumnKeyInjective(m1: string, s1: string, m2: string, s2: string)
    requires s1 != "" && s2 != ""
    requires '_' !in m1 && '_' !in s1 && '_' !in m2 && '_' !in s2
    requires ColumnKey(m1, s1) == ColumnKey(m2, s2)
    ensures m1 == m2 && s1 == s2
  {
    ColumnKeySplits(m1, s1);
    ColumnKeySplits(m2, s2);
  }

  /** `row.get(key, 0)`. */
  function CellValue(row: Record, key: string): (v: Value)
    ensures key !in row ==> v == Int(0)
  {
    if key in row then row[key] else Int(0)
  }

  /**
   * The `data-order` value: a text containing '%' is stripped of '%' at both
   * ends and read as a number (NaN for a "nan" text), 0 when that fails; any
   * other value is its own sort value.
   */
  function SortValue(v: Value): (r: Value)
    ensures !(v.Text? && '%' in v.s) ==> r == v
    ensures v.Text? && '%' in v.s ==> r.Float? || r == Int(0) || r == NaN
    ensures v.Text? && '%' in v.s ==> (r == NaN <==> IsNanText(Strip(v.s, '%')))
  {
    if v.Text? && '%' in v.s then
      var w := Strip(v.s, '%');
      if IsNanText(w) then NaN
      else
        match ParseDecimal(w)
        case Some(x) => Float(x)
        case None => Int(0)
    else v
  }

  /** A missing percentage, which `'{:.1f}%'` writes as "nan%", sorts as NaN. */
  lemma MissingPercentSortsAsNaN()
    ensures SortValue(Text("nan%")) == NaN
  {
    StripTrailing("nan", '%');
    assert "nan" + "%" == "nan%";
    assert IsNanText("nan");
  }

  /** A number text followed by '%' sorts as that number read without the '%'. */
  lemma PercentTextSortValue(w: string, x: real)
    requires '%' !in w && ParseDecimal(w) == Some(x)
    ensures SortValue(Text(w + "%")) == Float(x)
  {
    StripTrailing(w, '%');
    if IsNanText(w) { NanTextIsNotDecimal(w); }
    assert (w + "%")[|w|] == '%';
  }

  /** The text `'{:.1f}%'` writes for n + d/10: n's digits, a point, the digit d and '%'. */
  function PercentText(n: nat, d: nat): string
    requires d <= 9
  {
    DecimalString(n) + "." + [DigitChar(d)] + "%"
  }

  /** A percentage as the report writes it, "45.7%", sorts as the number 45.7. */
  lemma PercentSortsAsNumber(n: nat, d: nat)
    requires d <= 9
    ensures SortValue(Text(PercentText(n, d))) == Float(n as real + d as real / 10.0)
  {
    var digits := DecimalString(n);
    var w := digits + "." + [DigitChar(d)];
    assert '%' !in w by {
      forall i | 0 <= i < |digits| ensures digits[i] != '%' { assert IsDigit(digits[i]); }
      assert IsDigit(DigitChar(d));
    }
    assert PercentText(n, d) == w + "%";
    OneDecimalRoundTrip(n, d);
    PercentTextSortValue(w, n as real + d as real / 10.0);
  }

  /** A percentage text that is neither a number nor "nan" sorts as 0. */
  lemma BadPercentSortsAsZero(s: string)
    requires '%' in s && ParseDecimal(Strip(s, '%')).None? && !IsNanText(Strip(s, '%'))
    ensures SortValue(Text(s)) == Int(0)
  {
  }

  /** `"" if visible else "display:none"`. */
  function Style(visible: bool): (s: string)
    ensures s == "" <==> visible
  {
    if visible then "" else "display:none"
  }

  /** What a stat cell carries: its class, style, sort value and (unformatted) value. */
  datatype StatCell = StatCell(cssClass: string, style: string, sortValue: Value, value: Value)

  /** `create_stat_cell(row, metric, suffix, css_class, visible)`. */
  function StatCellOf(row: Record, metric: string, suffix: string, cssClass: string, visible: bool): (c: StatCell)
    ensures c.value == CellValue(row, ColumnKey(metric, suffix))
    ensures c.sortValue == SortValue(c.value)
    ensures c.style == "" <==> visible
  {
    var v := CellValue(row, ColumnKey(metric, suffix));
    StatCell(cssClass, Style(visible), SortValue(v), v)
  }

  /**
   * The L7 and L14 cells read the columns that `add_suffix` gave the L7 and
   * L14 frames: the cell of a suffixed row shows the original row's value.
   */
  lemma SuffixedCellReadsOriginal(r: Record, metric: string, period: string)
    requires period != ""
    ensures CellValue(SuffixRow(r, "_" + period), ColumnKey(metric, period)) == CellValue(r, metric)
  {
    assert ColumnKey(metric, period) == metric + ("_" + period);
  }
}
