/** The transfer record that the tracker detects, the store keeps and the notifier announces. */
module Transfers {
  import opened Wrappers

  /**
   * One detected ownership change (the dictionary built in
   * `detect_ownership_change`). `date` is the detection time in milliseconds
   * (Python writes it as an ISO-8601 string); `language` is `None` when
   * GitHub reports no primary language.
   */
  datatype Transfer = Transfer(
    repo: string,
    oldOwner: string,
    newOwner: string,
    date: int,
    stars: int,
    language: Option<string>)
}
