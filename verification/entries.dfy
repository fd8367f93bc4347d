/**
 * The record the heading pass hands to the table-of-contents builder.
 */
module Entries {
  /** The heading levels the heading pattern accepts (`[2-4]`). */
  type Level = n: int | 2 <= n <= 4 witness 2

  /** One ToC entry `(lvl, hid, text)`: level, assigned id, visible text. */
  datatype TocEntry = TocEntry(lvl: Level, hid: string, text: string)
}
