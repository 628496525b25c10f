/**
 * The small decision functions of the crate root (`src/lib.rs`):
 * character comparison for the string metrics, the construction of the
 * `Inputs` argument group, the yes/no decision of `ask_consent`, and the
 * mapping from the `OutputLevel` flags to a log level.
 *
 * Terminal reads are not modelled as I/O: the lines a user would type are a
 * parameter of the consent decision.
 */
module Lib {
  import opened Wrappers
  import opened Chars

  /** `str::compare_char`: equal, or equal up to ASCII case when `ignoreCase`. */
  function CompareChar(a: char, b: char, ignoreCase: bool): (r: bool)
    ensures !ignoreCase ==> (r <==> a == b)
    ensures a == b ==> r
    ensures r ==> ToLower(a) == ToLower(b)
    ensures ignoreCase && IsLower(a) && b == ToUpper(a) ==> r
  {
    (ignoreCase && EqIgnoreAsciiCase(a, b)) || a == b
  }

  lemma CompareCharSymmetric(a: char, b: char, ignoreCase: bool)
    ensures CompareChar(a, b, ignoreCase) == CompareChar(b, a, ignoreCase)
  {}

  /** Ignoring case relates only ASCII letters: any other character must match exactly. */
  lemma CompareCharNonLetter(a: char, b: char)
    requires !IsUpper(a) && !IsLower(a)
    ensures CompareChar(a, b, true) <==> a == b
  {}

  // ---------------------------------------------------------------------
  // args::input::Inputs

  newtype u8 = x: int | 0 <= x < 256

  datatype Inputs = Inputs(yes: bool, no: bool, trys: u8)

  /** `Inputs::new`: a default answer sets `yes` whatever it is; `no` only when it is `false`. */
  function NewInputs(bools: Option<bool>, trys: Option<u8>): (r: Inputs)
    ensures r.yes <==> bools.Some?
    ensures r.no <==> bools == Some(false)
    ensures trys.None? ==> r.trys == 3
    ensures trys.Some? ==> r.trys == trys.value
  {
    Inputs(bools.Some?, bools.Some? && !bools.value, if trys.Some? then trys.value else 3)
  }

  /**
   * With the default answer "no", `Inputs::new` sets both flags, which the
   * argument group declares exclusive, and `ask_consent` answers yes.
   */
  lemma DefaultNoConsents(replies: seq<string>)
    ensures NewInputs(Some(false), None).yes && NewInputs(Some(false), None).no
    ensures AskConsent(NewInputs(Some(false), None), replies)
  {}

  /** `Inputs::new` with `yes` set only by the default answer "yes". */
  function NewInputsFixed(bools: Option<bool>, trys: Option<u8>): (r: Inputs)
    ensures r.yes <==> bools == Some(true)
    ensures r.no <==> bools == Some(false)
    ensures !(r.yes && r.no)
    ensures trys.None? ==> r.trys == 3
    ensures trys.Some? ==> r.trys == trys.value
  {
    Inputs(bools == Some(true), bools == Some(false), if trys.Some? then trys.value else 3)
  }

  /** With the corrected constructor a default answer is what `ask_consent` returns, without reading. */
  lemma DefaultAnswerDecides(b: bool, trys: Option<u8>, replies: seq<string>)
    ensures AskConsent(NewInputsFixed(Some(b), trys), replies) == b
    ensures AskConsent(NewInputsFixed(Some(b), trys), replies) == AskConsent(NewInputsFixed(Some(b), trys), [])
  {}

  /** The answer parser handed to `try_read` by `ask_consent`. */
  function ParseConsent(answer: string): (r: Option<bool>)
    ensures r == Some(true) <==> answer in ["y", "yes", "j", "ja"]
    ensures r == Some(false) <==> answer in ["n", "no", "nein"]
  {
    if answer in ["y", "yes", "j", "ja"] then Some(true)
    else if answer in ["n", "no", "nein"] then Some(false)
    else None
  }

  /** Line `k` is the first parsable reply, and it parses to `answer`. */
  predicate DecidedAt(replies: seq<string>, k: nat, answer: bool) {
    k < |replies| && ParseConsent(replies[k]) == Some(answer)
    && forall j :: 0 <= j < k ==> ParseConsent(replies[j]).None?
  }

  /**
   * The read loop of `try_read` with no default: up to `attempts` lines are
   * parsed in order and the first parsable one decides.
   */
  function FirstAnswer(replies: seq<string>, attempts: nat): (r: Option<bool>)
    ensures r.Some? <==> exists k :: 0 <= k < attempts && k < |replies| && ParseConsent(replies[k]).Some?
    ensures r.Some? ==> exists k :: 0 <= k < attempts && DecidedAt(replies, k, r.value)
  {
    if attempts == 0 || replies == [] then None
    else if ParseConsent(replies[0]).Some? then
      assert DecidedAt(replies, 0, ParseConsent(replies[0]).value);
      ParseConsent(replies[0])
    else
      var r := FirstAnswer(replies[1..], attempts - 1);
      assert forall k :: 1 <= k < |replies| ==> replies[k] == replies[1..][k - 1];
      assert forall k: nat, b :: DecidedAt(replies[1..], k, b) ==> DecidedAt(replies, k + 1, b) by {
        forall k: nat, b | DecidedAt(replies[1..], k, b) ensures DecidedAt(replies, k + 1, b) {
          assert forall j :: 1 <= j < k + 1 ==> replies[j] == replies[1..][j - 1];
        }
      }
      r
  }

  /**
   * `Inputs::ask_consent`. `try_read` iterates over `1..trys`, so it reads at
   * most `trys - 1` lines; no parsable answer means "no".
   */
  function AskConsent(inputs: Inputs, replies: seq<string>): (r: bool)
    ensures inputs.yes || inputs.no ==> r == inputs.yes
    ensures !inputs.yes && !inputs.no ==>
      (r <==> exists k :: 0 <= k < inputs.trys as int - 1 && DecidedAt(replies, k, true))
  {
    if inputs.yes || inputs.no then inputs.yes
    else
      var attempts := if inputs.trys == 0 then 0 else inputs.trys as int - 1;
      var a := FirstAnswer(replies, attempts);
      if a.Some? then a.value else false
  }

  // ---------------------------------------------------------------------
  // debug::OutputLevel

  datatype Level = Error | Warn | Info | Debug | Trace

  datatype OutputLevel = OutputLevel(debug: bool, verbose: bool, warn: bool, silent: bool)

  /** `From<OutputLevel> for log::Level`: silent wins, then verbose, debug, warn. */
  function ToLevel(o: OutputLevel): (r: Level)
    ensures o.silent ==> r == Error
    ensures !o.silent && o.verbose ==> r == Trace
    ensures !o.silent && !o.verbose && o.debug ==> r == Debug
    ensures !o.silent && !o.verbose && !o.debug && o.warn ==> r == Warn
    ensures r == Info <==> !o.silent && !o.verbose && !o.debug && !o.warn
  {
    if o.silent then Error
    else if o.verbose then Trace
    else if o.debug then Debug
    else if o.warn then Warn
    else Info
  }
}
