/** The naming helpers of utilities.py: the default microphone name and the
    `<id> : <name>` caption of an assignable mic. The session's `inputs`
    list, read from the plugin in the source, is a parameter here (the names
    of its entries, in order). */
module Utilities {
  import opened Wrappers
  import opened Text

  const DefaultPrefix: string := "Microphone "

  /** `build_default_mic_name`: "Microphone <num>". */
  function BuildDefaultMicName(num: int): (r: string)
    ensures |r| > |DefaultPrefix| && r[..|DefaultPrefix|] == DefaultPrefix
    ensures r[|DefaultPrefix|..] == IntToString(num)
  {
    DefaultPrefix + IntToString(num)
  }

  /** Python's `s[k]`: a negative index counts from the end. */
  function PyIndex<T>(s: seq<T>, k: int): (r: T)
    requires -|s| <= k < |s|
    ensures 0 <= k ==> r == s[k]
    ensures k < 0 ==> r == s[|s| + k]
  {
    if k < 0 then s[|s| + k] else s[k]
  }

  /** The name part of the caption: the configured input's name when the
      session has inputs (Python indexing, so `numid - 1` may count from the
      end), else the default name. */
  function MicName(numid: int, inputs: seq<string>): (r: string)
    requires |inputs| > 0 ==> -|inputs| <= numid - 1 < |inputs|
  {
    if |inputs| > 0 then PyIndex(inputs, numid - 1) else BuildDefaultMicName(numid)
  }

  /** `get_mic_assign_name`: "<numid> : <name>". */
  function GetMicAssignName(numid: int, inputs: seq<string>): (r: string)
    requires |inputs| > 0 ==> -|inputs| <= numid - 1 < |inputs|
    ensures var k := |IntToString(numid)|;
      && |r| >= k + 3
      && r[..k] == IntToString(numid) && r[k..k + 3] == " : " && r[k + 3..] == MicName(numid, inputs)
  {
    IntToString(numid) + " : " + MicName(numid, inputs)
  }

  /** A caption reads back: its leading digits give the mic number, and after
      the separator comes the input's name for numbers 1 to the input count,
      or the default name when there are no inputs. */
  lemma MicAssignNameReadsBack(numid: nat, inputs: seq<string>)
    requires |inputs| > 0 ==> 1 <= numid <= |inputs|
    ensures ParseNat(GetMicAssignName(numid, inputs)[..|NatToString(numid)|]) == Some(numid)
    ensures |inputs| > 0 ==> GetMicAssignName(numid, inputs)[|NatToString(numid)| + 3..] == inputs[numid - 1]
    ensures |inputs| == 0 ==>
      ParseNat(GetMicAssignName(numid, inputs)[|NatToString(numid)| + 3 + |DefaultPrefix|..]) == Some(numid)
  {
    var s := NatToString(numid);
    var name := MicName(numid, inputs);
    var r := GetMicAssignName(numid, inputs);
    assert IntToString(numid) == s;
    ParseNatToString(numid);
    JoinedParts(s, " : ", name);
    if |inputs| == 0 {
      JoinedParts(DefaultPrefix, "", s);
      assert DefaultPrefix + "" + s == name;
      DropDrop(r, |s| + 3, |DefaultPrefix|);
    }
  }

  lemma JoinedParts(a: string, b: string, c: string)
    ensures (a + b + c)[..|a|] == a && (a + b + c)[|a| + |b|..] == c
  {
  }

  lemma DropDrop(s: string, i: nat, j: nat)
    requires i + j <= |s|
    ensures s[i..][j..] == s[i + j..]
  {
  }
}
