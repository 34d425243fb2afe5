/**
 * getMPDConfigString (plugins/audio_interface/bluetooth_controller/index.ts): the MPD
 * configuration text with one ALSA `audio_output` block per paired device, routed
 * through bluealsa.
 */
module MpdConfig {
  import opened Wrappers
  import opened PluginConfig

  /** A paired device record as stored under `pairedDevices.<mac>`. */
  datatype PairedDevice = PairedDevice(name: string, mac: string)

  // The fixed text of one block, piece by piece as the loop appends it
  const Open: string := "audio_output { \n\ttype \"alsa\"\n\tname \""
  const NameEnd: string := "\"\n\t"
  const DeviceOpen: string := "device \"bluealsa:HCI=hci0,DEV="
  const DeviceEnd: string := ",PROFILE=a2dp\" \n\t"
  const Close: string := "mixer_type \"software\"\n}\n"
  // What separates the name from the MAC, and what follows the MAC
  const Mid: string := NameEnd + DeviceOpen
  const Tail: string := DeviceEnd + Close

  /** The text appended for one device: the three appends of one loop iteration. */
  function Block(d: PairedDevice): (r: string)
    ensures |r| == |Open| + |d.name| + |Mid| + |d.mac| + |Tail|
    ensures r[..|Open|] == Open && r[|Open|..|Open| + |d.name|] == d.name
  {
    (Open + d.name + NameEnd) + (DeviceOpen + d.mac + DeviceEnd) + Close
  }

  /** The blocks of all devices, in list order. */
  function Blocks(ds: seq<PairedDevice>): (r: string)
    ensures r == [] <==> ds == []
  {
    if ds == [] then "" else Blocks(ds[..|ds| - 1]) + Block(ds[|ds| - 1])
  }

  /** The paired devices getConfigParam yields: one parsed record per sub-key of `pairedDevices`. */
  function PairedDevices(config: Config, parse: Value -> PairedDevice): seq<PairedDevice> {
    SubValues(config, "pairedDevices", parse)
  }

  /**
   * getMPDConfigString. `parse` stands for JSON.parse of a stored record. The direct
   * value of `pairedDevices` is falsy: the plugin only ever writes its sub-keys.
   */
  method GetMpdConfigString(config: Config, parse: Value -> PairedDevice) returns (btdata: string)
    requires !Truthy(Get(config, "pairedDevices"))
    ensures btdata == Blocks(PairedDevices(config, parse))
  {
    var btconfig := GetConfigParam(config, "pairedDevices", parse);
    btdata := "";
    if btconfig.Parsed? {
      GetConfigParamSubValues(config, "pairedDevices", parse, btconfig);
      var devices := btconfig.items;
      var i := 0;
      while i < |devices|
        invariant 0 <= i <= |devices|
        invariant btdata == Blocks(devices[..i])
      {
        assert devices[..i + 1][..i] == devices[..i];
        btdata := btdata + Block(devices[i]);
        i := i + 1;
      }
      assert devices[..|devices|] == devices;
    }
  }

  // ---------------------------------------------------------------------------
  // Shape of the output

  lemma Regroup(a: string, b: string, c: string, d: string, e: string, f: string, g: string)
    ensures (a + b + c) + (d + e + f) + g == a + (b + ((c + d) + (e + (f + g))))
  {
  }

  /** A block is the fixed text around the device's name and MAC. */
  lemma BlockShape(d: PairedDevice)
    ensures Block(d) == Open + (d.name + (Mid + (d.mac + Tail)))
  {
    Regroup(Open, d.name, NameEnd, DeviceOpen, d.mac, DeviceEnd, Close);
  }

  /** With no paired devices the configuration is empty. */
  lemma NoDevicesNoText(config: Config, parse: Value -> PairedDevice)
    requires GetKeys(config, "pairedDevices") == []
    ensures Blocks(PairedDevices(config, parse)) == ""
  {
  }

  /** Appending a device appends exactly its block. */
  lemma BlocksSnoc(ds: seq<PairedDevice>, d: PairedDevice)
    ensures Blocks(ds + [d]) == Blocks(ds) + Block(d)
  {
    assert (ds + [d])[..|ds|] == ds;
  }

  lemma Assoc(a: string, b: string, c: string)
    ensures (a + b) + c == a + (b + c)
  {
  }

  /** Blocks of a list are the first device's block followed by the blocks of the rest. */
  lemma {:induction false} BlocksCons(d: PairedDevice, ds: seq<PairedDevice>)
    ensures Blocks([d] + ds) == Block(d) + Blocks(ds)
    decreases |ds|
  {
    if ds == [] {
      assert [d] + ds == [] + [d];
      BlocksSnoc([], d);
    } else {
      var pre := ds[..|ds| - 1];
      var last := ds[|ds| - 1];
      assert [d] + ds == ([d] + pre) + [last];
      assert ds == pre + [last];
      BlocksSnoc([d] + pre, last);
      BlocksCons(d, pre);
      BlocksSnoc(pre, last);
      Assoc(Block(d), Blocks(pre), Block(last));
    }
  }

  /** Every block, and so every non-empty output, ends with `}` and a newline. */
  lemma BlocksEnd(ds: seq<PairedDevice>)
    requires ds != []
    ensures |Blocks(ds)| >= 2 && Blocks(ds)[|Blocks(ds)| - 2..] == "}\n"
  {
    var d := ds[|ds| - 1];
    var front := Blocks(ds[..|ds| - 1]) + ((Open + d.name + NameEnd) + (DeviceOpen + d.mac + DeviceEnd));
    assert Blocks(ds) == front + Close;
    assert (front + Close)[|front + Close| - 2..] == Close[|Close| - 2..];
  }

  // ---------------------------------------------------------------------------
  // Reading the blocks back

  /** The longest prefix of `s` without `c`. */
  function UpTo(s: string, c: char): (r: string)
    ensures |r| <= |s| && r == s[..|r|] && c !in r
    ensures |r| < |s| ==> s[|r|] == c
  {
    if s == [] || s[0] == c then []
    else
      var rest := UpTo(s[1..], c);
      assert [s[0]] + rest == s[..|rest| + 1];
      [s[0]] + rest
  }

  lemma {:induction false} UpToStops(x: string, c: char, rest: string)
    requires c !in x && rest != [] && rest[0] == c
    ensures UpTo(x + rest, c) == x
    decreases |x|
  {
    if x == [] {
      assert x + rest == rest;
    } else {
      assert (x + rest)[1..] == x[1..] + rest;
      UpToStops(x[1..], c, rest);
    }
  }

  /** Read one block off the front of `s`: its device and what follows it. */
  function ParseBlock(s: string): (r: Option<(PairedDevice, string)>)
    ensures r.Some? ==> |r.value.1| < |s|
  {
    if |s| < |Open| || s[..|Open|] != Open then None
    else
      var r1 := s[|Open|..];
      var name := UpTo(r1, '"');
      var r2 := r1[|name|..];
      if |r2| < |Mid| || r2[..|Mid|] != Mid then None
      else
        var r3 := r2[|Mid|..];
        var mac := UpTo(r3, ',');
        var r4 := r3[|mac|..];
        if |r4| < |Tail| || r4[..|Tail|] != Tail then None
        else Some((PairedDevice(name, mac), r4[|Tail|..]))
  }

  /** Read a whole configuration text back into its device list. */
  function ParseBlocks(s: string): (r: Option<seq<PairedDevice>>)
    ensures r.Some? ==> |r.value| <= |s|
    decreases |s|
  {
    if s == [] then Some([])
    else
      match ParseBlock(s)
      case None => None
      case Some((d, rest)) =>
        match ParseBlocks(rest)
        case None => None
        case Some(ds) => Some([d] + ds)
  }

  /** A record the text format can carry: the name has no `"` and the MAC no `,`. */
  predicate Writable(d: PairedDevice) {
    '"' !in d.name && ',' !in d.mac
  }

  lemma SplitAt(p: string, x: string)
    ensures (p + x)[..|p|] == p && (p + x)[|p|..] == x
  {
  }

  lemma SeparatorsStart()
    ensures Mid != [] && Mid[0] == '"'
    ensures Tail != [] && Tail[0] == ','
  {
  }

  lemma ParseBlockOfBlock(d: PairedDevice, rest: string)
    requires Writable(d)
    ensures ParseBlock(Block(d) + rest) == Some((d, rest))
  {
    var afterMac := Tail + rest;
    var afterName := Mid + (d.mac + afterMac);
    assert Block(d) + rest == Open + (d.name + afterName) by {
      BlockShape(d);
    }
    SplitAt(Open, d.name + afterName);
    SeparatorsStart();
    UpToStops(d.name, '"', afterName);
    SplitAt(d.name, afterName);
    SplitAt(Mid, d.mac + afterMac);
    UpToStops(d.mac, ',', afterMac);
    SplitAt(d.mac, afterMac);
    SplitAt(Tail, rest);
  }

  /** The configuration text determines the device list: reading it back gives the list. */
  /** Reading a text that starts with a block yields that block's device, then the rest. */
  lemma ParseBlocksCons(d: PairedDevice, rest: string, ds: seq<PairedDevice>)
    requires Writable(d) && ParseBlocks(rest) == Some(ds)
    ensures ParseBlocks(Block(d) + rest) == Some([d] + ds)
  {
    ParseBlockOfBlock(d, rest);
    assert Block(d) + rest != [];
  }

  lemma {:induction false} ParseBlocksRoundTrip(ds: seq<PairedDevice>)
    requires forall i :: 0 <= i < |ds| ==> Writable(ds[i])
    ensures ParseBlocks(Blocks(ds)) == Some(ds)
    decreases |ds|
  {
    if ds != [] {
      BlocksCons(ds[0], ds[1..]);
      assert [ds[0]] + ds[1..] == ds;
      ParseBlocksRoundTrip(ds[1..]);
      ParseBlocksCons(ds[0], Blocks(ds[1..]), ds[1..]);
    }
  }
}
