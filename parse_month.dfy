/**
 * The key helper of the block-meta query example
 * (examples/wasm-query-service/blockmeta_wasm_query/src/helper.rs): the
 * month of a "month:<kind>:<yyyymm>" key is its last two characters.
 */
module BlockMetaKeys {

  /** parse_month: the last two characters; a key shorter than two characters makes the slice panic. */
  function ParseMonth(key: string): (month: string)
    requires |key| >= 2
    ensures |month| == 2
    ensures key == key[..|key| - 2] + month
  {
    key[|key| - 2..]
  }

  /** The example key of the month index. */
  lemma ParseMonthExample()
    ensures ParseMonth("month:first:201909") == "09"
  {
  }
}
