/**
 * The plugin's boundary with the host: the static metadata record the host
 * reads at load time, and how an entry's value travels back to the handler
 * as a NUL-terminated string.
 */
module Plugin {
  import opened Wrappers
  import opened CStrings
  import opened ClipboardHistory
  import opened Entries
  import opened Selection

  /** The metadata descriptor: five texts the host reads through C string pointers. */
  datatype PluginInfo = PluginInfo(
    name: string,
    version: string,
    description: string,
    author: string,
    defaultPrefix: string)

  const PLUGIN_INFO: PluginInfo := PluginInfo(
    "Clipboard Manager",
    "1.0.1",
    "A plugin for managing your clipboard",
    "Ri",
    "c")

  /** The descriptor's fields in their declared order. */
  function Fields(info: PluginInfo): seq<string>
  {
    [info.name, info.version, info.description, info.author, info.defaultPrefix]
  }

  /** Each field of the descriptor is non-empty and reads back intact through its terminated buffer. */
  lemma PluginInfoReadable()
    ensures |Fields(PLUGIN_INFO)| == 5
    ensures forall i :: 0 <= i < 5 ==>
      |Fields(PLUGIN_INFO)[i]| > 0 &&
      ReadCStr(Terminate(Fields(PLUGIN_INFO)[i])) == Fields(PLUGIN_INFO)[i]
  {
    var fields := Fields(PLUGIN_INFO);
    forall i | 0 <= i < 5
      ensures |fields[i]| > 0 && ReadCStr(Terminate(fields[i])) == fields[i]
    {
      assert forall j :: 0 <= j < |fields[i]| ==> fields[i][j] != NUL;
      ReadTerminate(fields[i]);
    }
  }

  /**
   * Selecting a listed entry: the handler reads the entry's terminated value
   * up to its first NUL. The id it reads is a prefix of the value, and all of
   * it when the value holds no NUL. An empty id is rejected (a line that
   * starts with a tab, or a value that starts with a NUL); any other id runs
   * the pipeline on exactly that id.
   */
  lemma SelectListedEntry(stdout: string, k: nat)
    requires k < |EntriesOf(History(stdout))|
    ensures var e := EntriesOf(History(stdout))[k];
      var id := ReadCStr(Terminate(e.value));
      var action := PlanSelection(Some(Some(id)));
      id <= e.value &&
      (NUL !in e.value ==> id == e.value) &&
      (if id == "" then action == Reject
       else action == Spawn(Command(SHELL, ["-c", Pipeline(id)])))
  {
    var e := EntriesOf(History(stdout))[k];
    var buf := Terminate(e.value);
    assert buf[|e.value|] == NUL;
    var id := ReadCStr(buf);
    assert |id| <= |e.value|;
    assert id == buf[..|id|] == e.value[..|id|];
    if NUL !in e.value {
      ReadTerminate(e.value);
    }
    if id != "" {
      var action := PlanSelection(Some(Some(id)));
      PipelineRoundTrip(id);
      assert action.command.args[1] == Pipeline(id);
    }
  }

  /** A listed value holding a NUL reaches the handler cut at that NUL, so the pipeline gets a shorter id. */
  lemma SelectValueWithNul(a: string, b: string)
    requires NUL !in a && a != ""
    ensures PlanSelection(Some(Some(ReadCStr(Terminate(a + [NUL] + b))))) ==
      Spawn(Command(SHELL, ["-c", Pipeline(a)]))
    ensures Pipeline(a) != Pipeline(a + [NUL] + b)
  {
    TerminateTruncates(a, b);
    PipelineRoundTrip(a);
    PipelineRoundTrip(a + [NUL] + b);
    var action := PlanSelection(Some(Some(a)));
    assert action.command.args[1] == Pipeline(a);
  }
}
