/** The per-disk fields of the `megacli -pdlist` output and the rule that
    reads each one from its line (`check_disks`, the `elif` chain).

    A line is matched against six prefixes in a fixed order; the first match
    decides the field, and the field's rule derives an integer from the line:
    the three error counters take `int()` of the fourth space-separated word,
    the temperature takes `int()` of the text between the first `:` and the
    next `:` or `C`, and the two flags are substring tests.
 */
module DiskFields {
  import opened Results
  import opened Text

  datatype Field =
    | MediaErrorCount
    | OtherErrorCount
    | PredictiveFailureCount
    | SmartAlert
    | Temperature
    | FirmwareOk
  {
    /** The dictionary key the value is stored under; the metric is named after it. */
    function Key(): string {
      match this
      case MediaErrorCount => "media_error_count"
      case OtherErrorCount => "other_error_count"
      case PredictiveFailureCount => "predictive_failure_count"
      case SmartAlert => "smart_alert"
      case Temperature => "temperature"
      case FirmwareOk => "firmware_ok"
    }

    /** The line prefix that selects the field. */
    function Prefix(): string {
      match this
      case MediaErrorCount => "Media Error Count"
      case OtherErrorCount => "Other Error Count"
      case PredictiveFailureCount => "Predictive Failure Count"
      case SmartAlert => "Drive has flagged a S.M.A.R.T alert"
      case Temperature => "Drive Temperature"
      case FirmwareOk => "Firmware state"
    }

    /** The position of the field's test in the chain. */
    function Rank(): (k: nat)
      ensures k < |Chain| && Chain[k] == this
    {
      match this
      case MediaErrorCount => 0
      case OtherErrorCount => 1
      case PredictiveFailureCount => 2
      case SmartAlert => 3
      case Temperature => 4
      case FirmwareOk => 5
    }

    predicate IsCounter() {
      MediaErrorCount? || OtherErrorCount? || PredictiveFailureCount?
    }
  }

  /** The fields in the order the `if`/`elif` chain tests them. */
  const Chain: seq<Field> :=
    [MediaErrorCount, OtherErrorCount, PredictiveFailureCount, SmartAlert, Temperature, FirmwareOk]

  /** The first field of `chain` whose prefix `line` starts with. */
  function FirstMatch(line: string, chain: seq<Field>): Option<Field>
    decreases |chain|
  {
    if |chain| == 0 then None
    else if StartsWith(line, chain[0].Prefix()) then Some(chain[0])
    else FirstMatch(line, chain[1..])
  }

  /** The `if`/`elif` chain: the field a line selects, if any. */
  function FieldOf(line: string): Option<Field> {
    FirstMatch(line, Chain)
  }

  /** The value a line of field `f` assigns, or the exception computing it
      raises: `IndexError` for a missing word or piece, `ValueError` for text
      that is no integer, never `KeyError`. The two flags never fail and are
      0 or 1. */
  function FieldValue(f: Field, line: string): (r: Result<int>)
    ensures r.Failure? ==> r.error == IndexError || r.error == ValueError
    ensures (f == SmartAlert || f == FirmwareOk) ==> r.Success? && 0 <= r.value <= 1
  {
    match f
    case MediaErrorCount | OtherErrorCount | PredictiveFailureCount =>
      var word :- Token(line, ' ', 3);
      ParseInt(word)
    case SmartAlert =>
      Success(if Contains(line, "No") then 0 else 1)
    case Temperature =>
      var afterColon :- Token(line, ':', 1);
      ParseInt(Split(afterColon, 'C')[0])
    case FirmwareOk =>
      Success(if Count(line, "Online") < 1 || Count(line, "Spun Up") != 0 then 0 else 1)
  }

  // ---------------------------------------------------------------------------
  // Properties
  // ---------------------------------------------------------------------------

  /** Two different fields have prefixes no line starts with both of: all
      first letters differ except for the two `Drive ...` prefixes, which
      differ at index 6. */
  lemma PrefixesDisjoint(line: string, f: Field, g: Field)
    requires f != g
    ensures !(StartsWith(line, f.Prefix()) && StartsWith(line, g.Prefix()))
  {
    var k := if f.Prefix()[0] == g.Prefix()[0] then 6 else 0;
    PrefixesExclusive(line, f.Prefix(), g.Prefix(), k);
  }

  /** `FirstMatch` returns the earliest field of the chain whose prefix matches. */
  lemma {:induction false} FirstMatchAt(line: string, chain: seq<Field>, k: nat)
    requires k < |chain| && StartsWith(line, chain[k].Prefix())
    requires forall j :: 0 <= j < k ==> !StartsWith(line, chain[j].Prefix())
    ensures FirstMatch(line, chain) == Some(chain[k])
    decreases k
  {
    if k > 0 {
      assert !StartsWith(line, chain[0].Prefix());
      FirstMatchAt(line, chain[1..], k - 1);
    }
  }

  /** What `FirstMatch` returns is a field of the chain whose prefix matches;
      it finds nothing only when no prefix of the chain matches. */
  lemma {:induction false} FirstMatchFound(line: string, chain: seq<Field>)
    ensures FirstMatch(line, chain).Some? ==>
              FirstMatch(line, chain).value in chain
              && StartsWith(line, FirstMatch(line, chain).value.Prefix())
    ensures FirstMatch(line, chain).None? ==>
              forall j :: 0 <= j < |chain| ==> !StartsWith(line, chain[j].Prefix())
    decreases |chain|
  {
    if |chain| > 0 && !StartsWith(line, chain[0].Prefix()) {
      FirstMatchFound(line, chain[1..]);
      if FirstMatch(line, chain).None? {
        forall j | 0 <= j < |chain| ensures !StartsWith(line, chain[j].Prefix()) {
          if j > 0 {
            assert chain[j] == chain[1..][j - 1];
          }
        }
      }
    }
  }

  /** The six prefixes exclude each other, so the order of the chain is
      unobservable: a line selects field `f` exactly when it starts with `f`'s
      prefix, and it never selects two fields. */
  lemma FieldOfIffPrefix(line: string, f: Field)
    ensures FieldOf(line) == Some(f) <==> StartsWith(line, f.Prefix())
  {
    FirstMatchFound(line, Chain);
    if StartsWith(line, f.Prefix()) {
      var k := f.Rank();
      forall j | 0 <= j < k ensures !StartsWith(line, Chain[j].Prefix()) {
        PrefixesDisjoint(line, f, Chain[j]);
      }
      FirstMatchAt(line, Chain, k);
    }
  }

  /** A line that starts with a field prefix is neither an adapter-section
      header nor a device line. */
  lemma FieldLineIsNoContextLine(line: string)
    requires FieldOf(line).Some?
    ensures !StartsWith(line, "Adapter #") && !StartsWith(line, "Device Id:")
  {
    FirstMatchFound(line, Chain);
    PrefixIsNoContext(line, FieldOf(line).value);
  }

  lemma PrefixIsNoContext(line: string, f: Field)
    requires StartsWith(line, f.Prefix())
    ensures !StartsWith(line, "Adapter #") && !StartsWith(line, "Device Id:")
  {
    var p := f.Prefix();
    var k := if f.SmartAlert? || f.Temperature? then 1 else 0;
    assert p[k] != "Adapter #"[k] && p[k] != "Device Id:"[k];
    PrefixesExclusive(line, p, "Adapter #", k);
    PrefixesExclusive(line, p, "Device Id:", k);
  }

  /** The two flags are 0/1 values: `smart_alert` is 0 exactly when the line
      mentions `No`; `firmware_ok` is 1 exactly when the line mentions
      `Online` and does not mention `Spun Up` (so `Online, Spun Up` gives 0). */
  lemma FlagValues(line: string)
    ensures FieldValue(SmartAlert, line) == Success(if Contains(line, "No") then 0 else 1)
    ensures FieldValue(FirmwareOk, line).Success?
    ensures FieldValue(FirmwareOk, line).value == 1 <==>
              Contains(line, "Online") && !Contains(line, "Spun Up")
    ensures FieldValue(FirmwareOk, line).value == 0 <==>
              !Contains(line, "Online") || Contains(line, "Spun Up")
  {
  }

  /** The counter rule: a line of three words, a space and a fourth word
      `w` yields `int(w)`, with `int()`'s `ValueError` when `w` is not an
      integer literal. */
  lemma CounterRule(f: Field, caption: string, w: string)
    requires f.IsCounter()
    requires |Split(caption, ' ')| == 3 && ' ' !in w
    ensures FieldValue(f, caption + " " + w) == ParseInt(w)
  {
    FourthWord(caption, w);
  }

  /** A counter line of three words followed by `<n>` yields `n`, e.g.
      `Media Error Count: 3` yields 3; with only the three words the lookup of
      the fourth raises `IndexError`. */
  lemma CounterValue(f: Field, caption: string, n: int)
    requires f.IsCounter()
    requires |Split(caption, ' ')| == 3
    ensures FieldValue(f, caption + " " + Show(n)) == Success(n)
    ensures FieldValue(f, caption) == Failure(IndexError)
  {
    ShowAvoids(n, ' ');
    CounterRule(f, caption, Show(n));
    ParseIntShowBare(n);
  }

  /** A counter line whose fourth word is not an integer literal raises
      `ValueError`: a malformed count is an error, never a default. */
  lemma CounterNotNumber(f: Field, caption: string, word: string)
    requires f.IsCounter()
    requires |Split(caption, ' ')| == 3
    requires ' ' !in word && !IsIntLiteral(Strip(word))
    ensures FieldValue(f, caption + " " + word) == Failure(ValueError)
  {
    CounterRule(f, caption, word);
  }

  /** The fourth word of three words, a space and a word is that word. */
  lemma FourthWord(caption: string, w: string)
    requires |Split(caption, ' ')| == 3 && ' ' !in w
    ensures Token(caption + " " + w, ' ', 3) == Success(w)
  {
    SplitSnoc(caption, w, ' ');
    assert caption + " " + w == caption + [' '] + w;
  }

  /** The temperature rule: in a line `<head>:<mid>C<rest>`, with no `:` in
      `head` and neither `:` nor `C` in `mid`, the value is `int(mid)`,
      including `int()`'s `ValueError` when `mid` is not an integer literal
      (`Drive Temperature :N/A` has no `C` after the colon; see
      `TemperatureNoUnit`). */
  lemma TemperatureRule(head: string, mid: string, rest: string)
    requires ':' !in head && ':' !in mid && 'C' !in mid
    ensures FieldValue(Temperature, head + ":" + mid + "C" + rest) == ParseInt(mid)
  {
    assert head + ":" + mid + "C" + rest == head + [':'] + mid + "C" + rest;
    BetweenColonAndC(head, mid, rest);
  }

  /** Without a `C` after the colon the whole text after it is read:
      `<head>:<mid>` yields `int(mid)`. */
  lemma TemperatureNoUnit(head: string, mid: string)
    requires ':' !in head && ':' !in mid && 'C' !in mid
    ensures FieldValue(Temperature, head + ":" + mid) == ParseInt(mid)
  {
    assert head + ":" + mid == head + [':'] + mid;
    SplitAtFirst(head, mid, ':');
    SplitNoSeparator(mid, ':');
    SplitNoSeparator(mid, 'C');
  }

  /** A temperature that is not an integer literal raises `ValueError`, with
      or without the unit: `Drive Temperature :N/A` raises it. */
  lemma TemperatureNotNumber(head: string, mid: string, rest: string)
    requires ':' !in head && ':' !in mid && 'C' !in mid
    requires !IsIntLiteral(Strip(mid))
    ensures FieldValue(Temperature, head + ":" + mid + "C" + rest) == Failure(ValueError)
    ensures FieldValue(Temperature, head + ":" + mid) == Failure(ValueError)
  {
    TemperatureRule(head, mid, rest);
    TemperatureNoUnit(head, mid);
  }

  /** A temperature line `<head>:<n>C<anything>`, with no `:` in `head`,
      yields `n`; e.g. `Drive Temperature :45C (113F)` yields 45. */
  lemma TemperatureValue(head: string, n: int, rest: string)
    requires ':' !in head
    ensures FieldValue(Temperature, head + ":" + Show(n) + "C" + rest) == Success(n)
  {
    ShowAvoids(n, ':');
    ShowAvoids(n, 'C');
    TemperatureRule(head, Show(n), rest);
    ParseIntShowBare(n);
  }

  /** In `head:sC...`, the text between the first `:` and the next `C` is `s`. */
  lemma BetweenColonAndC(head: string, s: string, rest: string)
    requires ':' !in head && ':' !in s && 'C' !in s
    ensures |Split(head + [':'] + s + "C" + rest, ':')| >= 2
    ensures Split(Split(head + [':'] + s + "C" + rest, ':')[1], 'C')[0] == s
  {
    assert head + [':'] + s + "C" + rest == head + [':'] + (s + "C" + rest);
    SplitAtFirst(head, s + "C" + rest, ':');
    SplitGlue(s + "C", rest, ':');
    assert s + "C" + rest == (s + "C") + rest;
    var after := Split(s + "C" + rest, ':')[0];
    assert after == s + "C" + Split(rest, ':')[0];
    SplitAtFirst(s, Split(rest, ':')[0], 'C');
  }

  /** A temperature line without a `:` raises `IndexError`. */
  lemma TemperatureWithoutColon(line: string)
    requires ':' !in line
    ensures FieldValue(Temperature, line) == Failure(IndexError)
  {
    SplitNoSeparator(line, ':');
  }
}
