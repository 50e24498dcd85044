/** What parse_mtdparts of cmd_mtdparts.c refuses: a missing prefix, an unknown mtd-id, a device written twice,
    a device without partitions, an empty name. */
module MtdRefused {
  import opened CTypes
  import opened MtdValidate
  import opened MtdNumbers
  import opened MtdText
  import opened MtdParse
  import opened MtdGrammar
  import opened MtdRoundTrip

  /** Nothing but "mtdparts=" and at least one character is parsed. */
  lemma PrefixNeeded(ids: seq<Id>, s: string)
    ensures Parse(ids, s).Some? ==> "mtdparts=" < s
  {
    if |s| > 9 && s[..9] == "mtdparts=" {
      assert s == "mtdparts=" + s[9..];
    }
  }

  lemma {:induction false} NotSplit(s: string, c: char)
    ensures SplitAt(s, c).Some? ==>
              var (a, b) := SplitAt(s, c).value;
              c !in a && s == a + [c] + b
  {
    if s != [] && s[0] != c {
      NotSplit(s[1..], c);
      if SplitAt(s[1..], c).Some? {
        var (a, b) := SplitAt(s[1..], c).value;
        assert s == [s[0]] + s[1..];
      }
    }
  }

  lemma {:induction false} NoSuchId(ids: seq<Id>, name: string)
    requires forall i :: 0 <= i < |ids| ==> ids[i].mtdId != name
    ensures FindId(ids, name) == None
  {
    if ids != [] {
      NoSuchId(ids[1..], name);
    }
  }

  /** A device whose mtd-id is not in the list is refused, and so is the whole text. */
  lemma UnknownDevice(ids: seq<Id>, done: seq<Device>, name: string, text: string)
    requires ':' !in name && forall i :: 0 <= i < |ids| ==> ids[i].mtdId != name
    ensures ParseDevice(ids, done, name + ":" + text) == None
    ensures ParseDevices(ids, done, name + ":" + text) == None
  {
    var s := name + ":" + text;
    Colon(name, text);
    NoSuchId(ids, name);
    hide FindId, SplitAt;
  }

  lemma Colon(name: string, text: string)
    requires ':' !in name
    ensures SplitAt(name + ":" + text, ':') == Some((name, text))
  {
    assert name + ":" + text == name + [':'] + text;
    SplitsAtFirst(name, ':', text);
  }

  /** A device without a colon, or with no partition behind it, is refused. */
  lemma EmptyDevice(ids: seq<Id>, done: seq<Device>, name: string, t: string)
    requires t == [] || t[0] == ';'
    ensures ':' !in name ==> ParseDevice(ids, done, name + ":" + t) == None && ParseDevice(ids, done, name) == None
  {
    if ':' !in name {
      Colon(name, t);
      NotSplit(name, ':');
      hide SplitAt, FindId;
    }
  }

  /** An empty name is refused behind every size and offset. */
  lemma EmptyName(s: Spec, t: string)
    requires IsSpec(s)
    ensures ParsePart(SizeText(s) + (AtText(s) + ("()" + t))) == None
  {
    hide SizeText, AtText, ParseSize, ParseOffset;
    BeforeBracket(s, t);
    ReadsWrittenSize(s, AtText(s) + ("()" + t));
    ReadsWrittenAt(s, "()" + t);
    Bracket(t);
  }

  lemma BeforeBracket(s: Spec, t: string)
    ensures Delimits("()" + t) && Delimits(AtText(s) + ("()" + t)) && ("()" + t)[0] == '('
  {
    assert s.offset.None? ==> AtText(s) + ("()" + t) == "()" + t;
    hide Delimits;
    assert s.offset.Some? ==> (AtText(s) + ("()" + t))[0] == '@';
    Delimiters("()" + t, '(');
    if s.offset.Some? {
      Delimiters(AtText(s) + ("()" + t), '@');
    }
  }

  lemma Delimiters(r: string, c: char)
    requires r != [] && r[0] == c && (c == '(' || c == '@')
    ensures Delimits(r)
  {
  }

  lemma Bracket(t: string)
    ensures ("()" + t)[0] == '(' && ("()" + t)[1..] == ")" + t && SplitAt(")" + t, ')') == Some(("", t))
  {
    assert (")" + t)[1..] == t;
  }

  /** Behind the read-only flag stands ',' or ';' or nothing, else the partition is refused. */
  lemma GarbageBehind(s: Spec, g: string)
    requires IsSpec(s) && s.readOnly && g != [] && g[0] != ',' && g[0] != ';'
    ensures ParsePart(SpecText(s) + g) == None
  {
    hide SizeText, AtText, CalledText, SpecText, WrittenSize, WrittenAt, ParseSize, ParseOffset, ParseName, AutoName;
    SpecPieces(s, g);
    FlagDelimits(s, g);
    hide Delimits, IsSpec;
    ReadsWrittenSize(s, AtText(s) + (CalledText(s) + ("ro" + g)));
    ReadsWrittenAt(s, CalledText(s) + ("ro" + g));
    ReadsCalled(s, "ro" + g);
  }

  lemma FlagDelimits(s: Spec, g: string)
    ensures var d := "ro" + g;
            var c := CalledText(s) + d;
            && d[0] == 'r' && d[1] == 'o' && d[2..] == g && FlagText(true) == "ro"
            && c[0] != '@' && Delimits(c) && Delimits(AtText(s) + c)
  {
    hide NumeralText;
    var c := CalledText(s) + ("ro" + g);
    assert c[0] == '(' || c[0] == 'r';
  }

  // ----- a device written twice -----

  ghost predicate Same(a: Id, b: Id) {
    a.devType == b.devType && a.num == b.num
  }

  ghost predicate Repeats(done: seq<Device>, ds: seq<DeviceSpec>) {
    || (exists i, j :: 0 <= i < j < |ds| && Same(ds[i].id, ds[j].id))
    || (exists i, j :: 0 <= i < |done| && 0 <= j < |ds| && Same(done[i].id, ds[j].id))
  }

  lemma {:induction false} FoundIff(done: seq<Device>, id: Id)
    ensures FindDevice(done, id).Some? <==> exists i :: 0 <= i < |done| && Same(done[i].id, id)
  {
    if done != [] {
      FoundIff(done[1..], id);
      assert forall i :: 0 < i < |done| ==> done[i] == done[1..][i - 1];
      if Same(done[0].id, id) {
      } else if FindDevice(done[1..], id).Some? {
        var i :| 0 <= i < |done[1..]| && Same(done[1..][i].id, id);
        assert Same(done[i + 1].id, id);
      }
    }
  }

  /** A pair of equal devices is still there after the first device, unless that one is listed already. */
  lemma RepeatsStep(done: seq<Device>, e: Device, ds: seq<DeviceSpec>)
    requires ds != [] && e.id == ds[0].id && Repeats(done, ds)
    requires forall i :: 0 <= i < |done| ==> !Same(done[i].id, e.id)
    ensures Repeats(done + [e], ds[1..])
  {
    hide Same;
    var more, rest := done + [e], ds[1..];
    assert forall j :: 0 < j < |ds| ==> ds[j] == rest[j - 1];
    assert forall i :: 0 <= i < |done| ==> more[i] == done[i];
    assert more[|done|] == e;
    if i, j :| 0 <= i < j < |ds| && Same(ds[i].id, ds[j].id) {
      if i == 0 {
        assert Same(more[|done|].id, rest[j - 1].id);
      } else {
        assert Same(rest[i - 1].id, rest[j - 1].id);
      }
    } else {
      var i, j :| 0 <= i < |done| && 0 <= j < |ds| && Same(done[i].id, ds[j].id);
      assert Same(more[i].id, rest[j - 1].id);
    }
  }

  lemma {:induction false} RepeatedFails(ids: seq<Id>, done: seq<Device>, ds: seq<DeviceSpec>)
    requires forall i :: 0 <= i < |ds| ==> IsDeviceSpec(ids, ds[i])
    requires Repeats(done, ds)
    ensures ParseDevices(ids, done, TableText(ds)) == None
    decreases |ds|
  {
    hide IsDeviceSpec, ParseDevice, FindDevice, TableText, Sorted, Repeats, StartOffset, Same;
    NotEmpty(done, ds);
    OneDeviceParses(ids, done, ds);
    FoundIff(done, ds[0].id);
    var ps := Sorted(ds[0].id, StartOffset(done, ds[0].id), ds[0].specs);
    if ps.Some? && FindDevice(done, ds[0].id) == None {
      var e := Device(ds[0].id, ps.value);
      RepeatsStep(done, e, ds);
      RepeatedFails(ids, done + [e], ds[1..]);
    }
  }

  lemma NotEmpty(done: seq<Device>, ds: seq<DeviceSpec>)
    requires Repeats(done, ds)
    ensures ds != []
  {
  }

  /** A text in which two entries name the same device is refused as a whole. */
  lemma RepeatedDevice(ids: seq<Id>, ds: seq<DeviceSpec>, i: nat, j: nat)
    requires i < j < |ds| && forall k :: 0 <= k < |ds| ==> IsDeviceSpec(ids, ds[k])
    requires ds[i].id.devType == ds[j].id.devType && ds[i].id.num == ds[j].id.num
    ensures Parse(ids, "mtdparts=" + TableText(ds)) == None
  {
    assert Same(ds[i].id, ds[j].id);
    hide IsDeviceSpec, Same, ParseDevices, TableText;
    var s := "mtdparts=" + TableText(ds);
    OneDeviceParses(ids, [], ds);
    assert s[..9] == "mtdparts=" && s[9..] == TableText(ds);
    RepeatedFails(ids, [], ds);
  }
}
