/**
 * The command table: the nine accepted command names, the literal JSON body
 * sent upstream for each, and determine_command's lookup.
 */
module Commands {

  const CommandCount: nat := 9

  const AcceptedCommands: seq<string> := [
    "power_on", "power_off",
    "mute_on", "mute_off",
    "volume_up", "volume_down",
    "line_xbox", "line_vinyl", "line_echo"
  ]

  const SwitchBotPostData: seq<string> := [
    "{\"command\":\"turnOn\",\"parameter\":\"default\",\"commandType\":\"\"}",
    "{\"command\":\"turnOff\",\"parameter\":\"default\",\"commandType\":\"command\"}",
    "{\"command\":\"setMute\",\"parameter\":\"default\",\"commandType\":\"command\"}",
    "{\"command\":\"setMute\",\"parameter\":\"default\",\"commandType\":\"command\"}",
    "{\"command\":\"volumeAdd\",\"parameter\":\"default\",\"commandType\":\"command\"}",
    "{\"command\":\"volumeSub\",\"parameter\":\"default\",\"commandType\":\"command\"}",
    "{\"command\":\"Optical\",\"parameter\":\"default\",\"commandType\":\"customize\"}",
    "{\"command\":\"Phono\",\"parameter\":\"default\",\"commandType\":\"customize\"}",
    "{\"command\":\"Line 3\",\"parameter\":\"default\",\"commandType\":\"customize\"}"
  ]

  /** The two tables are parallel: one post body per accepted name. */
  lemma TablesParallel()
    ensures |AcceptedCommands| == |SwitchBotPostData| == CommandCount
  {
  }

  /**
   * Reference lookup: the first position at or after from holding name, or -1.
   */
  function IndexFrom(name: string, from: nat): (i: int)
    requires from <= CommandCount
    ensures i == -1 || from <= i < CommandCount
    ensures i == -1 <==> forall j :: from <= j < CommandCount ==> AcceptedCommands[j] != name
    ensures i >= 0 ==> AcceptedCommands[i] == name && forall j :: from <= j < i ==> AcceptedCommands[j] != name
    decreases CommandCount - from
  {
    if from == CommandCount then -1
    else if AcceptedCommands[from] == name then from
    else IndexFrom(name, from + 1)
  }

  /** The table position of an accepted name, or -1 for any other string. */
  function CommandIndex(name: string): (i: int)
    ensures -1 <= i < CommandCount
    ensures i == -1 <==> name !in AcceptedCommands
    ensures i >= 0 ==> AcceptedCommands[i] == name
  {
    IndexFrom(name, 0)
  }

  /**
   * determine_command: scans the nine names in order and returns the first
   * index whose name equals the input exactly, or -1 if none does.
   */
  method DetermineCommand(name: string) returns (i: int)
    ensures i == CommandIndex(name)
    ensures -1 <= i < |SwitchBotPostData|
    ensures i >= 0 ==> AcceptedCommands[i] == name && forall j :: 0 <= j < i ==> AcceptedCommands[j] != name
    ensures i == -1 <==> forall j :: 0 <= j < CommandCount ==> AcceptedCommands[j] != name
  {
    var k := 0;
    while k < CommandCount
      invariant 0 <= k <= CommandCount
      invariant forall j :: 0 <= j < k ==> AcceptedCommands[j] != name
    {
      if AcceptedCommands[k] == name {
        return k;
      }
      k := k + 1;
    }
    return -1;
  }

  /** No name appears twice, so an accepted name has exactly one table entry. */
  lemma NamesDistinct()
    ensures forall i, j :: 0 <= i < j < CommandCount ==> AcceptedCommands[i] != AcceptedCommands[j]
  {
  }

  /** Every accepted name resolves to its own entry, and a look-up is case-sensitive. */
  lemma KnownNames()
    ensures forall i :: 0 <= i < CommandCount ==> CommandIndex(AcceptedCommands[i]) == i
    ensures CommandIndex("teleport") == -1 && CommandIndex("POWER_ON") == -1
  {
    forall i | 0 <= i < CommandCount
      ensures CommandIndex(AcceptedCommands[i]) == i
    {
      var j := CommandIndex(AcceptedCommands[i]);
      assert AcceptedCommands[j] == AcceptedCommands[i];
      if j != i {
        NamesDistinct();
        assert false;
      }
    }
  }

  /** mute_on and mute_off send the same body, so both toggle the same setting upstream. */
  lemma MutePayloadsIdentical()
    ensures CommandIndex("mute_on") == 2 && CommandIndex("mute_off") == 3
    ensures SwitchBotPostData[2] == SwitchBotPostData[3]
  {
  }
}
