/** The daemon-facing pure helpers of server/torrentService.js: the public download states, the
    native-to-public status table, error-message extraction and number normalisation. */
module Aria {
  import opened Wrappers
  import opened Text
  import opened JsNumbers

  /** The public state of a download. */
  datatype Status = Starting | Downloading | Paused | Completed | Failed | Cancelled

  /** The states startDownload treats as over ('failed', 'cancelled', 'completed'). */
  predicate IsTerminal(s: Status) {
    s == Failed || s == Cancelled || s == Completed
  }

  /** The states for which a record is `finalized`. */
  predicate IsFinal(s: Status) {
    s == Completed || s == Cancelled
  }

  /** mapAriaStatus: the daemon's native status word mapped to the public state. */
  function MapAriaStatus(native: string): (r: Status)
    ensures r == Downloading <==> native == "active" || native == "seeding"
    ensures r == Paused <==> native == "paused" || native == "pausedDL" || native == "pausedUP"
    ensures r == Completed <==> native == "complete"
    ensures r == Cancelled <==> native == "removed"
    ensures r == Failed <==> native == "error"
    ensures r == Starting <==> native !in KnownNative
  {
    match native
    case "active" => Downloading
    case "seeding" => Downloading
    case "waiting" => Starting
    case "paused" => Paused
    case "pausedDL" => Paused
    case "pausedUP" => Paused
    case "complete" => Completed
    case "removed" => Cancelled
    case "error" => Failed
    case _ => Starting
  }

  /** The native words that map to something other than the default 'starting'. */
  const KnownNative: set<string> :=
    {"active", "seeding", "paused", "pausedDL", "pausedUP", "complete", "removed", "error"}

  /** The error field of a daemon reply: absent, a plain string, or an object that may carry a string message. */
  datatype AriaError = NoError | ErrorText(text: string) | ErrorObject(message: Option<string>)

  /** formatAriaError: the text of an error, or null. */
  function FormatAriaError(e: AriaError): (r: Option<string>)
    ensures r.Some? <==> (e.ErrorText? && e.text != "") || (e.ErrorObject? && e.message.Some?)
    ensures e.ErrorText? && e.text != "" ==> r == Some(e.text)
    ensures e.ErrorObject? ==> r == e.message
  {
    match e
    case NoError => None
    case ErrorText(t) => if t == "" then None else Some(t)
    case ErrorObject(m) => m
  }

  /** normaliseNumber: Number(value) when that is finite, otherwise 0. A finite number is kept, and
      every value Number() cannot read as a finite number (undefined, NaN, the infinities) gives 0. */
  function NormaliseNumber(value: Value): (r: real)
    ensures value.Num? && value.n.Finite? ==> r == value.n.v
    ensures value.Num? && !value.n.Finite? ==> r == 0.0
    ensures value == Undefined || value == Null || value == Bool(false) ==> r == 0.0
    ensures value == Bool(true) ==> r == 1.0
  {
    var n := ToNumber(value);
    if n.IsFinite() then n.v else 0.0
  }

  /** A count printed in decimal, as the providers send seeders and sizes, reads back as itself. */
  lemma NormaliseNumberOfText(n: nat)
    ensures NormaliseNumber(Str(NatToString(n))) == n as real
  {
    StringToNumberOfNatToString(n);
  }

  /** Text with no decimal digit in it (an empty field aside, which Number() reads as 0) gives 0. */
  lemma NormaliseNumberNoDigit(s: string)
    requires forall i :: 0 <= i < |s| ==> !IsDigit(s[i])
    ensures NormaliseNumber(Str(s)) == 0.0
  {
  }
}
