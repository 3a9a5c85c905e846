/** The indicator list the temporal assembler selects its feature columns from. */
module Config {

  /** `INDICATOR_COLS`: the nine indicators, in configuration order. */
  const IndicatorCols: seq<string> := ["IAA", "IEG", "IPS", "IDA", "IPP", "IPV", "IAN", "INDE", "Defasagem"]
}
