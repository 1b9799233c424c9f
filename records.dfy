/** The parsed form of a CSV record that both pipelines read by column name. */
module Records {
  /**
   * A record, keyed by header name. A header that is not a key is a column
   * the record lacks, where `record.get(name)` throws IllegalArgumentException.
   */
  type Row = map<string, string>
}
