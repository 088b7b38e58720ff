/**
 * The pilot-access request form: the compliance checkbox toggle, the plain
 * (not yet URL-encoded) mail body built on submit, and the
 * submitting/submitted transitions.
 */
module PilotForm {
  import opened Seqs

  // ---------------------------------------------------------------------------
  // Compliance toggle

  /** Clicking a compliance option: drop every occurrence when present, append it when absent. */
  function Toggle(compliance: seq<string>, value: string): (r: seq<string>)
    ensures value in r <==> value !in compliance
    ensures forall x :: x != value ==> (x in r <==> x in compliance)
  {
    if value in compliance then Filter(compliance, c => c != value) else compliance + [value]
  }

  lemma ToggleAppendsAbsent(compliance: seq<string>, value: string)
    requires value !in compliance
    ensures Toggle(compliance, value) == compliance + [value]
  {
  }

  /**
   * Toggling a present value removes all its occurrences and keeps every other
   * element, with its multiplicity, in the original relative order.
   */
  lemma {:induction false} ToggleRemovesPresent(compliance: seq<string>, value: string)
    requires value in compliance
    ensures var r := Toggle(compliance, value);
      && value !in r
      && Subsequence(r, compliance)
      && forall x :: x != value ==> multiset(r)[x] == multiset(compliance)[x]
  {
    var p := (c: string) => c != value;
    FilterIsSubsequence(compliance, p);
    forall x | x != value
      ensures multiset(Toggle(compliance, value))[x] == multiset(compliance)[x]
    {
      FilterMultiset(compliance, p, x);
    }
  }

  /** Toggling an absent value twice gives back the original list. */
  lemma {:induction false} ToggleTwiceAbsent(compliance: seq<string>, value: string)
    requires value !in compliance
    ensures Toggle(Toggle(compliance, value), value) == compliance
  {
    var p := (c: string) => c != value;
    FilterConcat(compliance, [value], p);
    FilterAllPass(compliance, p);
    assert Filter([value], p) == [];
  }

  // ---------------------------------------------------------------------------
  // Mail body

  datatype FormData = FormData(
    email: string,
    company: string,
    useCase: string,
    timeline: string,
    compliance: seq<string>)

  const EmptyForm := FormData("", "", "", "", [])

  /** `parts` joined with `sep` between consecutive elements, as `Array.prototype.join` does. */
  function Join(parts: seq<string>, sep: string): (s: string)
    ensures parts == [] ==> s == ""
    ensures |parts| == 1 ==> s == parts[0]
    ensures |s| >= (|parts| - 1) * |sep|
    ensures |parts| >= 2 ==> parts[0] + sep <= s
    decreases |parts|
  {
    if parts == [] then ""
    else if |parts| == 1 then parts[0]
    else parts[0] + sep + Join(parts[1..], sep)
  }

  /** The joined string is empty exactly for no parts or one empty part, whenever the separator is not empty. */
  lemma JoinEmpty(parts: seq<string>, sep: string)
    requires sep != ""
    ensures Join(parts, sep) == "" <==> parts == [] || parts == [""]
  {
    if |parts| >= 2 {
      assert |Join(parts, sep)| >= |sep|;
    }
  }

  /** The joined string has no line break when neither the separator nor any part has one. */
  lemma {:induction false} JoinNoNewline(parts: seq<string>, sep: string)
    requires '\n' !in sep
    requires forall k :: 0 <= k < |parts| ==> '\n' !in parts[k]
    ensures '\n' !in Join(parts, sep)
    decreases |parts|
  {
    if |parts| >= 2 {
      JoinNoNewline(parts[1..], sep);
      assert Join(parts, sep) == parts[0] + sep + Join(parts[1..], sep);
    }
  }

  const Placeholder := "None specified"

  /**
   * The value of the compliance line: the selections joined with ", ", or the
   * placeholder when that join is empty (a logical-or fallback on the joined
   * string, so a single empty selection also yields the placeholder).
   */
  function ComplianceText(compliance: seq<string>): (t: string)
    ensures compliance == [] ==> t == Placeholder
    ensures compliance == [""] ==> t == Placeholder
    ensures compliance != [] && compliance != [""] ==> t == Join(compliance, ", ")
  {
    JoinEmpty(compliance, ", ");
    var joined := Join(compliance, ", ");
    if joined == "" then Placeholder else joined
  }

  /** `text` as one line, terminated by a line break, in front of `rest`. */
  function Line(text: string, rest: string): string {
    text + "\n" + rest
  }

  /** The body of the request mail: a title, an empty line, then one labelled line per field. */
  function MailBody(f: FormData): (body: string)
    ensures "Pilot Access Request\n\nEmail: " + f.email + "\n" <= body
    ensures |body| > 0 && body[|body| - 1] == '\n'
  {
    Line("Pilot Access Request",
    Line("",
    Line("Email: " + f.email,
    Line("Company/Organization: " + f.company,
    Line("Use Case: " + f.useCase,
    Line("Timeline: " + f.timeline,
    Line("Compliance Requirements: " + ComplianceText(f.compliance), "")))))))
  }

  /** The lines of `s`, split at every line break, as `String.prototype.split` does with a one-character separator. */
  function Lines(s: string): (ls: seq<string>)
    ensures |ls| >= 1
    decreases |s|
  {
    if s == [] then [""]
    else
      var rest := Lines(s[1..]);
      if s[0] == '\n' then [""] + rest else [[s[0]] + rest[0]] + rest[1..]
  }

  lemma {:induction false} LinesAfterLine(line: string, rest: string)
    requires '\n' !in line
    ensures Lines(line + "\n" + rest) == [line] + Lines(rest)
    decreases |line|
  {
    if line == [] {
      assert line + "\n" + rest == ['\n'] + rest;
      assert (['\n'] + rest)[1..] == rest;
    } else {
      var s := line + "\n" + rest;
      assert s[0] == line[0];
      assert s[1..] == line[1..] + "\n" + rest;
      LinesAfterLine(line[1..], rest);
      assert [line[0]] + line[1..] == line;
    }
  }

  /** Five lines after a title and an empty line, each terminated by a line break. */
  lemma {:induction false} SevenLines(l0: string, l2: string, l3: string, l4: string, l5: string, l6: string)
    requires '\n' !in l0 && '\n' !in l2 && '\n' !in l3 && '\n' !in l4 && '\n' !in l5 && '\n' !in l6
    ensures Lines(Line(l0, Line("", Line(l2, Line(l3, Line(l4, Line(l5, Line(l6, "")))))))) ==
      [l0, "", l2, l3, l4, l5, l6, ""]
  {
    var t5 := Line(l6, "");
    LinesAfterLine(l6, "");
    var t4 := Line(l5, t5);
    LinesAfterLine(l5, t5);
    var t3 := Line(l4, t4);
    LinesAfterLine(l4, t4);
    var t2 := Line(l3, t3);
    LinesAfterLine(l3, t3);
    var t1 := Line(l2, t2);
    LinesAfterLine(l2, t2);
    var t0 := Line("", t1);
    LinesAfterLine("", t1);
    LinesAfterLine(l0, t0);
  }

  /**
   * When no field value contains a line break, the body consists of exactly
   * these lines, in this order, followed by the empty remainder after the
   * final line break.
   */
  lemma MailBodyLines(f: FormData)
    requires '\n' !in f.email && '\n' !in f.company && '\n' !in f.useCase && '\n' !in f.timeline
    requires forall k :: 0 <= k < |f.compliance| ==> '\n' !in f.compliance[k]
    ensures Lines(MailBody(f)) == [
      "Pilot Access Request",
      "",
      "Email: " + f.email,
      "Company/Organization: " + f.company,
      "Use Case: " + f.useCase,
      "Timeline: " + f.timeline,
      "Compliance Requirements: " + ComplianceText(f.compliance),
      ""]
  {
    JoinNoNewline(f.compliance, ", ");
    SevenLines("Pilot Access Request", "Email: " + f.email, "Company/Organization: " + f.company,
      "Use Case: " + f.useCase, "Timeline: " + f.timeline,
      "Compliance Requirements: " + ComplianceText(f.compliance));
  }

  // ---------------------------------------------------------------------------
  // Form state

  /**
   * One mounted form: its fields, the two status flags, and the number of
   * delayed completions that have been scheduled and have not yet run.
   */
  class Form {
    /** Whether the host passed a success callback. */
    const hasOnSuccess: bool
    var data: FormData
    var isSubmitting: bool
    var isSubmitted: bool
    var pendingCompletions: nat

    constructor (onSuccess: bool)
      ensures hasOnSuccess == onSuccess
      ensures data == EmptyForm && !isSubmitting && !isSubmitted && pendingCompletions == 0
    {
      hasOnSuccess := onSuccess;
      data := EmptyForm;
      isSubmitting, isSubmitted := false, false;
      pendingCompletions := 0;
    }

    /** A click on a compliance option: only the compliance list changes. */
    method HandleComplianceChange(value: string)
      modifies this`data
      ensures data == old(data).(compliance := Toggle(old(data).compliance, value))
    {
      data := data.(compliance := Toggle(data.compliance, value));
    }

    /**
     * The submit handler: marks the form as submitting, returns the mail body
     * that the mail link carries, and schedules one delayed completion.
     */
    method HandleSubmit() returns (body: string)
      modifies this`isSubmitting, this`pendingCompletions
      ensures isSubmitting
      ensures pendingCompletions == old(pendingCompletions) + 1
      ensures body == MailBody(data)
    {
      isSubmitting := true;
      body := MailBody(data);
      pendingCompletions := pendingCompletions + 1;
    }

    /** The delayed completion: leaves the submitting state, shows the confirmation and reports whether the success callback runs. */
    method CompleteSubmission() returns (notified: bool)
      requires pendingCompletions > 0
      modifies this`isSubmitting, this`isSubmitted, this`pendingCompletions
      ensures !isSubmitting && isSubmitted
      ensures pendingCompletions == old(pendingCompletions) - 1
      ensures notified == hasOnSuccess
    {
      isSubmitting := false;
      isSubmitted := true;
      pendingCompletions := pendingCompletions - 1;
      notified := hasOnSuccess;
    }

    /** "Submit another request": hides the confirmation and clears every field; the submitting flag is untouched. */
    method ResetForm()
      modifies this`isSubmitted, this`data
      ensures !isSubmitted && data == EmptyForm
    {
      isSubmitted := false;
      data := EmptyForm;
    }
  }
}
