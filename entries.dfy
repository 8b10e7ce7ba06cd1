// A creature entry as the tracker stores it: an ordered dict from field name
// (NUM, NAME, TYPE, HP, ...) to the field's text.

module Entries {
  import opened Text
  import opened OrderedMaps

  type Entry = Dict<string>

  /** e.get(k, "") */
  function Field(e: Entry, k: string): string {
    GetOr(e, k, "")
  }

  /** e.get("NAME", "").strip().lower(): the key an entry is filed under and
      the text a query is compared with. */
  function NameKey(e: Entry): string {
    Lower(Strip(Field(e, "NAME")))
  }
}
