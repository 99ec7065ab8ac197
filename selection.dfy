/**
 * Handling the host's selection (`handle_selection`): the selected entry's
 * value is checked, and, when usable, one shell pipeline is run that decodes
 * that history id with the collector and hands the content to the clipboard
 * tool. The pipeline's outcome is a parameter of the model.
 */
module Selection {
  import opened Wrappers

  /** A process launch: the program and its argument vector. */
  datatype Command = Command(program: string, args: seq<string>)

  /** What the handler does with a selection: nothing, or launch one process. */
  datatype Action = Reject | Spawn(command: Command)

  /** How a launched process ends: it exits (successfully or not), or it cannot be started. */
  datatype SpawnResult = Exited(success: bool) | SpawnFailed

  const SHELL: string := "sh"
  const DECODE: string := "cliphist decode "
  const COPY: string := " | wl-copy"

  /** The shell text that decodes history entry `id` and copies it to the clipboard; `id` is not escaped. */
  function Pipeline(id: string): string
  {
    DECODE + id + COPY
  }

  /** The id a pipeline text was built from, if it has the pipeline's shape. */
  function PipelineId(script: string): (id: Option<string>)
    ensures id.Some? ==> Pipeline(id.value) == script
  {
    if |script| >= |DECODE| + |COPY| && script[..|DECODE|] == DECODE
      && script[|script| - |COPY|..] == COPY
    then
      var id := script[|DECODE|..|script| - |COPY|];
      assert script == script[..|DECODE|] + id + script[|script| - |COPY|..];
      Some(id)
    else None
  }

  /** The pipeline keeps the id intact: it can be read back out of the pipeline text. */
  lemma PipelineRoundTrip(id: string)
    ensures PipelineId(Pipeline(id)) == Some(id)
  {
    var script := Pipeline(id);
    assert script[..|DECODE|] == DECODE;
    assert script[|script| - |COPY|..] == COPY;
    assert script[|DECODE|..|script| - |COPY|] == id;
  }

  /**
   * The text the handler works with: `None` for a null pointer; for a
   * pointer whose bytes are not valid UTF-8 (`Some(None)`) the empty text,
   * as `to_str().unwrap_or("")` gives; otherwise the text itself.
   */
  function SelectionText(selection: Option<Option<string>>): (text: Option<string>)
    ensures text.None? <==> selection.None?
    ensures selection.Some? && selection.value.Some? ==> text == selection.value
    ensures selection.Some? && selection.value.None? ==> text == Some("")
  {
    match selection
    case None => None
    case Some(bytes) =>
      match bytes
      case None => Some("")
      case Some(s) => Some(s)
  }

  /** The handler's decision: reject a null, undecodable or empty selection; otherwise spawn the pipeline under `sh -c`. */
  function PlanSelection(selection: Option<Option<string>>): (action: Action)
    ensures action.Reject? <==>
      selection.None? || selection.value.None? || selection.value.value == ""
    ensures action.Spawn? ==>
      action.command.program == SHELL && |action.command.args| == 2 &&
      action.command.args[0] == "-c" &&
      PipelineId(action.command.args[1]) == Some(selection.value.value)
  {
    match SelectionText(selection)
    case None => Reject
    case Some(text) =>
      if |text| == 0 then Reject
      else
        PipelineRoundTrip(text);
        Spawn(Command(SHELL, ["-c", Pipeline(text)]))
  }

  /**
   * The value `handle_selection` returns, given how the pipeline would end if
   * launched: false on rejection, on a failed launch and on a failing exit;
   * otherwise the pipeline's success.
   */
  function HandleSelection(selection: Option<Option<string>>, outcome: SpawnResult): (ok: bool)
    ensures ok <==>
      selection.Some? && selection.value.Some? && selection.value.value != "" &&
      outcome == Exited(true)
  {
    match PlanSelection(selection)
    case Reject => false
    case Spawn(_) =>
      match outcome
      case Exited(success) => success
      case SpawnFailed => false
  }

  /** A rejected selection does not depend on any process: its result is false whatever a launch would do. */
  lemma RejectionSpawnsNothing(selection: Option<Option<string>>, o1: SpawnResult, o2: SpawnResult)
    requires PlanSelection(selection).Reject?
    ensures HandleSelection(selection, o1) == HandleSelection(selection, o2) == false
  {
  }
}
