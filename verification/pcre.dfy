/**
 * The library's foreign calls, taken as given functions: the PCRE engine
 * (`preg_match`, its capture array, `preg_replace` with an empty replacement),
 * `filter_var(.., FILTER_SANITIZE_SPECIAL_CHARS)` and `md5`. Every operation
 * that needs one of them receives an `Engine`; nothing about their behaviour
 * is assumed except where a member asks for `StripShrinks`.
 */
module Pcre {
  import opened Wrappers

  datatype Engine = Engine(
    /** `preg_match($pattern, $subject)` returned 1. */
    matches: (string, string) -> bool,
    /** `$matches[$i]` after a successful `preg_match($pattern, $subject, $matches)`; None when unset. */
    capture: (string, string, int) -> Option<string>,
    /** `preg_replace('/' . $pattern . '/', '', $subject)`. */
    strip: (string, string) -> string,
    /** `filter_var($s, FILTER_SANITIZE_SPECIAL_CHARS)`. */
    sanitize: string -> string,
    /** `md5($s)`. */
    digest: string -> string)

  /** The one assumption made about the regex engine: removing matches never lengthens a string. */
  ghost predicate StripShrinks(e: Engine) {
    forall pattern: string, subject: string :: |e.strip(pattern, subject)| <= |subject|
  }
}
