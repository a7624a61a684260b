/** The mount database (mountpoint.py): the records parsed from the output
    of the `mount` command, the partitions and loop devices of one mounted
    image, and the manager that keeps every mounted image and answers
    lookups about them. Running `mount`, `losetup` and `umount`, creating
    and removing directories and waiting for a mount are I/O and are not part
    of the model: the text `mount` prints is a parameter. */
module Mounts {
  import opened Wrappers
  import opened Text

  /** The exceptions the lookups raise. */
  datatype MountFailure =
    | NotFourFields        // a record that does not unpack into four names (ValueError)
    | NotInt(text: string) // `int()` of a text that is not a decimal number (ValueError)

  // ---------------------------------------------------------------------
  // MountData

  /** The tokens of a line without every `on` and `type`. */
  function Keep(tk: seq<string>): (r: seq<string>)
    ensures forall x :: x in r <==> x in tk && x != "on" && x != "type"
    ensures |r| <= |tk|
    decreases |tk|
  {
    if tk == [] then []
    else (if tk[0] == "on" || tk[0] == "type" then [] else [tk[0]]) + Keep(tk[1..])
  }

  /** The record of one line, if any: the line is stripped and split at
      single spaces, and only a line of exactly six tokens gives a record. */
  function LineRecord(l: string): (r: seq<seq<string>>)
    ensures |r| <= 1
  {
    var tk := Split(Strip(l), ' ');
    if |tk| == 6 then [Keep(tk)] else []
  }

  /** The records of the lines `ls`, in order. */
  function ParseLines(ls: seq<string>): seq<seq<string>>
    decreases |ls|
  {
    if ls == [] then [] else LineRecord(ls[0]) + ParseLines(ls[1..])
  }

  /** The records of the whole `mount` output, split at line ends. */
  function ParseMount(text: string): seq<seq<string>>
  {
    ParseLines(Split(text, '\n'))
  }

  /** Lines are parsed one by one: the records of `a + b` are those of `a`
      followed by those of `b`. */
  lemma {:induction false} ParseLinesAppend(a: seq<string>, b: seq<string>)
    ensures ParseLines(a + b) == ParseLines(a) + ParseLines(b)
    decreases |a|
  {
    if a == [] {
      assert a + b == b;
    } else {
      ParseLinesCons(a, b);
      ParseLinesAppend(a[1..], b);
      ConcatAssoc(LineRecord(a[0]), ParseLines(a[1..]), ParseLines(b));
    }
  }

  lemma ParseLinesCons(a: seq<string>, b: seq<string>)
    requires a != []
    ensures ParseLines(a + b) == LineRecord(a[0]) + ParseLines(a[1..] + b)
    ensures ParseLines(a) == LineRecord(a[0]) + ParseLines(a[1..])
  {
    assert (a + b)[0] == a[0] && (a + b)[1..] == a[1..] + b;
  }

  lemma ConcatAssoc(x: seq<seq<string>>, y: seq<seq<string>>, z: seq<seq<string>>)
    ensures x + (y + z) == (x + y) + z
  {
  }

  /** A record holds no `on` and no `type` and at most six tokens. */
  lemma {:induction false} RecordsClean(ls: seq<string>)
    ensures forall r :: r in ParseLines(ls) ==> "on" !in r && "type" !in r && |r| <= 6
    decreases |ls|
  {
    if ls != [] {
      RecordsClean(ls[1..]);
      assert ParseLines(ls) == LineRecord(ls[0]) + ParseLines(ls[1..]);
    }
  }

  /** A text without white space in it, as every token of a `mount` line is. */
  predicate Token(s: string)
  {
    s != [] && forall i :: 0 <= i < |s| ==> !IsSpace(s[i])
  }

  lemma {:induction false} JoinFirst(xs: seq<string>, sep: string)
    requires |xs| > 0 && xs[0] != []
    ensures Join(xs, sep) != [] && Join(xs, sep)[0] == xs[0][0]
  {
  }

  lemma {:induction false} JoinLast(xs: seq<string>, sep: string)
    requires |xs| > 0 && xs[|xs| - 1] != []
    ensures Join(xs, sep) != [] && Join(xs, sep)[|Join(xs, sep)| - 1] == xs[|xs| - 1][|xs[|xs| - 1]| - 1]
    decreases |xs|
  {
    if |xs| > 1 {
      assert xs[1..][|xs[1..]| - 1] == xs[|xs| - 1];
      JoinLast(xs[1..], sep);
    }
  }

  /** The tokens of a standard line without `on` and `type`. */
  lemma KeepStandard(dev: string, mpt: string, fs: string, attrs: string)
    requires dev !in ["on", "type"] && mpt !in ["on", "type"] && fs !in ["on", "type"] && attrs !in ["on", "type"]
    ensures Keep([dev, "on", mpt, "type", fs, attrs]) == [dev, mpt, fs, attrs]
  {
    var tks := [dev, "on", mpt, "type", fs, attrs];
    assert tks[5..][1..] == [] && Keep(tks[5..]) == [attrs];
    assert tks[4..][1..] == tks[5..] && Keep(tks[4..]) == [fs, attrs];
    assert tks[3..][1..] == tks[4..] && Keep(tks[3..]) == [fs, attrs];
    assert tks[2..][1..] == tks[3..] && Keep(tks[2..]) == [mpt, fs, attrs];
    assert tks[1..][1..] == tks[2..] && Keep(tks[1..]) == [mpt, fs, attrs];
  }

  /** Tokens without white space, joined by single spaces, strip to
      themselves and split back into the tokens. */
  lemma {:induction false} SplitTokens(tks: seq<string>)
    requires |tks| > 0 && forall k :: 0 <= k < |tks| ==> Token(tks[k])
    ensures Split(Strip(Join(tks, " ")), ' ') == tks
  {
    var line := Join(tks, " ");
    JoinFirst(tks, " ");
    JoinLast(tks, " ");
    assert Token(tks[0]) && Token(tks[|tks| - 1]);
    StripKeeps(line);
    assert FreeOf(tks, ' ') by {
      forall k | 0 <= k < |tks| ensures ' ' !in tks[k] {
        var t := tks[k];
        assert Token(t);
        forall i | 0 <= i < |t| ensures t[i] != ' ' {
          assert !IsSpace(t[i]);
        }
      }
    }
    SplitJoin(tks, ' ');
  }

  /** A standard line `dev on mpt type fs (attrs)` gives the record
      `[dev, mpt, fs, (attrs)]`. */
  lemma StandardLine(dev: string, mpt: string, fs: string, attrs: string)
    requires Token(dev) && Token(mpt) && Token(fs) && Token(attrs)
    requires dev !in ["on", "type"] && mpt !in ["on", "type"] && fs !in ["on", "type"] && attrs !in ["on", "type"]
    ensures ParseLines([Join([dev, "on", mpt, "type", fs, attrs], " ")]) == [[dev, mpt, fs, attrs]]
  {
    var tks := [dev, "on", mpt, "type", fs, attrs];
    assert forall k :: 0 <= k < |tks| ==> Token(tks[k]);
    SplitTokens(tks);
    KeepStandard(dev, mpt, fs, attrs);
    var line := Join(tks, " ");
    assert LineRecord(line) == [[dev, mpt, fs, attrs]];
    assert [line][1..] == [];
  }

  /** `_a2t(attrs)`: the text without its first and last character, split at
      commas; a text shorter than two characters leaves nothing to split. */
  function A2T(attrs: string): (r: seq<string>)
    ensures |r| > 0
  {
    Split(if |attrs| >= 2 then attrs[1..|attrs| - 1] else "", ',')
  }

  /** `_a2t` undoes the parenthesised, comma-joined form `mount` prints. */
  lemma A2TRoundTrip(xs: seq<string>)
    requires |xs| > 0 && FreeOf(xs, ',')
    ensures A2T("(" + Join(xs, ",") + ")") == xs
  {
    var j := Join(xs, ",");
    var s := "(" + j + ")";
    assert s[1..|s| - 1] == j;
    SplitJoin(xs, ',');
  }

  /** `get_attrs_by_dev` (column 0) and `get_attrs_by_mpt` (column 1): every
      record is unpacked into four names before it is compared, and the
      first match gives its attributes; `()` when nothing matches. */
  function AttrsBy(records: seq<seq<string>>, col: nat, key: string): Result<seq<string>, MountFailure>
    requires col <= 1
    decreases |records|
  {
    if records == [] then Ok([])
    else if |records[0]| != 4 then Err(NotFourFields)
    else if records[0][col] == key then Ok(A2T(records[0][3]))
    else AttrsBy(records[1..], col, key)
  }

  /** Where the loop of the lookup stops: the first record that does not
      unpack or that matches, or the end. */
  function StopAt(records: seq<seq<string>>, col: nat, key: string): (s: nat)
    requires col <= 1
    ensures s <= |records|
    ensures forall j :: 0 <= j < s ==> |records[j]| == 4 && records[j][col] != key
    ensures s < |records| ==> |records[s]| != 4 || records[s][col] == key
    decreases |records|
  {
    if records == [] || |records[0]| != 4 || records[0][col] == key then 0
    else
      var s := StopAt(records[1..], col, key);
      assert forall j :: 1 <= j <= s ==> records[j] == records[1..][j - 1];
      s + 1
  }

  /** The lookup decides at the record where its loop stops. */
  lemma {:induction false} AttrsByStop(records: seq<seq<string>>, col: nat, key: string)
    requires col <= 1
    ensures var s := StopAt(records, col, key);
      AttrsBy(records, col, key) ==
        if s == |records| then Ok([])
        else if |records[s]| != 4 then Err(NotFourFields)
        else Ok(A2T(records[s][3]))
    decreases |records|
  {
    if records != [] && |records[0]| == 4 && records[0][col] != key {
      AttrsByStop(records[1..], col, key);
    }
  }

  /** The lookup fails exactly when a record of another length than four
      comes before the first match; otherwise it gives the attributes of the
      first match, and `()` only when there is none. */
  lemma AttrsByMeans(records: seq<seq<string>>, col: nat, key: string)
    requires col <= 1
    ensures AttrsBy(records, col, key).Err? <==>
      exists k :: 0 <= k < |records| && |records[k]| != 4 &&
        forall j :: 0 <= j < k ==> |records[j]| == 4 && records[j][col] != key
    ensures forall k :: (0 <= k < |records| && |records[k]| == 4 && records[k][col] == key &&
        (forall j :: 0 <= j < k ==> |records[j]| == 4 && records[j][col] != key)) ==>
      AttrsBy(records, col, key) == Ok(A2T(records[k][3]))
    ensures AttrsBy(records, col, key) == Ok([]) <==>
      forall k :: 0 <= k < |records| ==> |records[k]| == 4 && records[k][col] != key
  {
    var s := StopAt(records, col, key);
    AttrsByStop(records, col, key);
    if s < |records| && |records[s]| == 4 {
      assert A2T(records[s][3]) != [];
    }
  }

  /** Read back from a standard `mount` line, either lookup gives the
      attributes printed in its parentheses. */
  lemma LineAttrs(dev: string, mpt: string, fs: string, xs: seq<string>)
    requires |xs| > 0 && FreeOf(xs, ',')
    requires Token(dev) && Token(mpt) && Token(fs) && Token("(" + Join(xs, ",") + ")")
    requires dev !in ["on", "type"] && mpt !in ["on", "type"] && fs !in ["on", "type"]
    ensures var records := ParseLines([Join([dev, "on", mpt, "type", fs, "(" + Join(xs, ",") + ")"], " ")]);
      AttrsBy(records, 0, dev) == Ok(xs) && AttrsBy(records, 1, mpt) == Ok(xs)
  {
    var attrs := "(" + Join(xs, ",") + ")";
    assert attrs[0] == '(';
    StandardLine(dev, mpt, fs, attrs);
    A2TRoundTrip(xs);
  }

  /** The loop of `get_attrs_by_dev` and `get_attrs_by_mpt`. */
  method FindAttrs(records: seq<seq<string>>, col: nat, key: string) returns (r: Result<seq<string>, MountFailure>)
    requires col <= 1
    ensures r == AttrsBy(records, col, key)
  {
    var rest := records;
    while rest != []
      invariant AttrsBy(records, col, key) == AttrsBy(rest, col, key)
      decreases |rest|
    {
      var md := rest[0];
      if |md| != 4 {
        return Err(NotFourFields);
      }
      if md[col] == key {
        return Ok(A2T(md[3]));
      }
      rest := rest[1..];
    }
    return Ok([]);
  }

  /** The loop of `MountData()` over the lines of the output. */
  method ParseOutput(text: string) returns (rs: seq<seq<string>>)
    ensures rs == ParseMount(text)
  {
    var lines := Split(text, '\n');
    rs := [];
    var rest := lines;
    while rest != []
      invariant ParseLines(lines) == rs + ParseLines(rest)
      decreases |rest|
    {
      var rec := LineRecord(rest[0]);
      ParseLinesCons(rest, []);
      ConcatAssoc(rs, rec, ParseLines(rest[1..]));
      rs := rs + rec;
      rest := rest[1..];
    }
    assert rs + [] == rs;
  }

  /** `MountData`: the records of one reading of `mount`. */
  class MountData {
    const records: seq<seq<string>>

    /** `MountData()`, with `text` as the output of `mount`. */
    constructor (text: string)
      ensures records == ParseMount(text)
    {
      var rs := ParseOutput(text);
      records := rs;
    }

    method GetAttrsByDev(device: string) returns (r: Result<seq<string>, MountFailure>)
      ensures r == AttrsBy(records, 0, device)
    {
      r := FindAttrs(records, 0, device);
    }

    method GetAttrsByMpt(mountpoint: string) returns (r: Result<seq<string>, MountFailure>)
      ensures r == AttrsBy(records, 1, mountpoint)
    {
      r := FindAttrs(records, 1, mountpoint);
    }
  }

  /** The test of `is_writable`: `rw` among the attributes and `ro` not. */
  predicate Writable(attrs: seq<string>)
  {
    "rw" in attrs && "ro" !in attrs
  }

  // ---------------------------------------------------------------------
  // MountPoint

  /** What one `MountPoint` holds: the set of partition directories, the
      same directories in the order they were added (the order the model
      gives to iterating the set and the dict), and the loop device of each. */
  datatype Mount = Mount(partitions: set<string>, order: seq<string>, loopDevices: map<string, string>)

  ghost predicate WfMount(m: Mount)
  {
    (forall i, j :: 0 <= i < j < |m.order| ==> m.order[i] != m.order[j]) &&
    (forall x :: x in m.order <==> x in m.partitions) &&
    m.partitions == m.loopDevices.Keys
  }

  /** `add(pth, loopdev)`. */
  function AddTo(m: Mount, p: string, d: string): Mount
  {
    Mount(m.partitions + {p}, if p in m.order then m.order else m.order + [p], m.loopDevices[p := d])
  }

  /** `get_loop_device(pth)`. */
  function LoopDevice(m: Mount, p: string): (r: Option<string>)
    ensures r.Some? <==> p in m.loopDevices
    ensures r.Some? ==> r.value == m.loopDevices[p]
  {
    if p in m.loopDevices then Some(m.loopDevices[p]) else None
  }

  /** `dict.values()` in key order. */
  function Values(ks: seq<string>, mp: map<string, string>): (r: seq<string>)
    requires forall k :: k in ks ==> k in mp
    ensures |r| == |ks| && forall i :: 0 <= i < |ks| ==> r[i] == mp[ks[i]]
    decreases |ks|
  {
    if ks == [] then [] else [mp[ks[0]]] + Values(ks[1..], mp)
  }

  /** `add` keeps a mount well formed, records `p` with its loop device and
      leaves every other directory's device as it was. */
  lemma AddToFacts(m: Mount, p: string, d: string)
    requires WfMount(m)
    ensures WfMount(AddTo(m, p, d))
    ensures p in AddTo(m, p, d).partitions && LoopDevice(AddTo(m, p, d), p) == Some(d)
    ensures AddTo(m, p, d).partitions == m.partitions + {p}
    ensures forall q :: q != p ==> LoopDevice(AddTo(m, p, d), q) == LoopDevice(m, q)
  {
  }

  /** `MountPoint`. */
  class MountPoint {
    var partitions: set<string>
    var order: seq<string>
    var loopDevices: map<string, string>

    function State(): Mount
      reads this
    {
      Mount(partitions, order, loopDevices)
    }

    ghost predicate Valid()
      reads this
    {
      WfMount(State())
    }

    constructor ()
      ensures Valid() && State() == Mount({}, [], map[])
    {
      partitions := {};
      order := [];
      loopDevices := map[];
    }

    /** `add(pth, loopdev)`: returns the mount point itself. */
    method Add(p: string, d: string) returns (r: MountPoint)
      modifies this
      requires Valid()
      ensures Valid() && State() == AddTo(old(State()), p, d)
      ensures r == this
    {
      AddToFacts(State(), p, d);
      partitions := partitions + {p};
      if p !in order {
        order := order + [p];
      }
      loopDevices := loopDevices[p := d];
      r := this;
    }

    /** `get_partitions()`. */
    method GetPartitions() returns (r: seq<string>)
      requires Valid()
      ensures r == order && forall x :: x in r <==> x in partitions
    {
      r := order;
    }

    /** `get_loop_device(pth)`. */
    method GetLoopDevice(p: string) returns (r: Option<string>)
      ensures r == LoopDevice(State(), p)
    {
      if p in loopDevices {
        r := Some(loopDevices[p]);
      } else {
        r := None;
      }
    }

    /** `get_loop_devices()`. */
    method GetLoopDevices() returns (r: seq<string>)
      requires Valid()
      ensures |r| == |order| && forall i :: 0 <= i < |order| ==> r[i] == loopDevices[order[i]]
    {
      r := Values(order, loopDevices);
    }
  }

  // ---------------------------------------------------------------------
  // Loop device names

  predicate IsDigit(c: char)
  {
    '0' <= c <= '9'
  }

  predicate AllDigits(s: string)
  {
    forall i :: 0 <= i < |s| ==> IsDigit(s[i])
  }

  /** The number a string of decimal digits denotes. */
  function DecimalValue(s: string): nat
    requires AllDigits(s)
    decreases |s|
  {
    if s == [] then 0 else DecimalValue(s[..|s| - 1]) * 10 + (s[|s| - 1] as int - '0' as int)
  }

  /** `int(s)` on the texts a loop device name can give: an optional sign
      and at least one decimal digit. */
  function ParseInt(s: string): (r: Option<int>)
  {
    if |s| > 0 && (s[0] == '+' || s[0] == '-') && |s| > 1 && AllDigits(s[1..]) then
      Some(if s[0] == '-' then 0 - DecimalValue(s[1..]) as int else DecimalValue(s[1..]))
    else if |s| > 0 && AllDigits(s) then Some(DecimalValue(s))
    else None
  }

  /** `str(n)` for a natural number. */
  function Decimal(n: nat): (r: string)
    ensures |r| > 0 && AllDigits(r)
    decreases n
  {
    if n < 10 then [('0' as int + n) as char] else Decimal(n / 10) + [('0' as int + n % 10) as char]
  }

  /** `int(str(n)) == n`. */
  lemma {:induction false} DecimalRoundTrip(n: nat)
    ensures DecimalValue(Decimal(n)) == n && ParseInt(Decimal(n)) == Some(n)
    decreases n
  {
    var d := Decimal(n);
    if n >= 10 {
      DecimalRoundTrip(n / 10);
      assert d[..|d| - 1] == Decimal(n / 10);
    } else {
      assert d[..0] == [];
    }
  }

  lemma DecimalPlain(n: nat)
    ensures 'p' !in Decimal(n) && '/' !in Decimal(n)
  {
    var d := Decimal(n);
    assert forall i :: 0 <= i < |d| ==> IsDigit(d[i]);
  }

  /** `s[4:]`: the text after its first four characters, or nothing. */
  function Drop4(s: string): string
  {
    if |s| >= 4 then s[4..] else ""
  }

  /** The partition number of a loop device,
      `int(basename(dev)[4:].split("p")[-1])`; `None` where `int()` raises. */
  function PartitionNumber(dev: string): Option<int>
  {
    ParseInt(NumberText(dev))
  }

  /** The text `int()` is given: `basename(dev)[4:].split("p")[-1]`. */
  function NumberText(dev: string): string
  {
    var pieces := Split(Drop4(Basename(dev)), 'p');
    pieces[|pieces| - 1]
  }

  /** The `loopN...` part of `/dev/loopN...`. */
  lemma LoopBasename(x: string)
    requires '/' !in x
    ensures Basename("/dev/loop" + x) == "loop" + x && Drop4(Basename("/dev/loop" + x)) == x
  {
    assert "/dev/loop" + x == "/dev" + "/" + ("loop" + x);
    assert '/' !in "loop" + x;
    BasenameAfterSlash("/dev", "loop" + x);
    assert ("loop" + x)[4..] == x;
  }

  /** `/dev/loopNpK` is partition `K`. */
  lemma PartitionOfLoop(n: nat, k: nat)
    ensures PartitionNumber("/dev/loop" + Decimal(n) + "p" + Decimal(k)) == Some(k)
  {
    var x := Decimal(n) + "p" + Decimal(k);
    DecimalPlain(n);
    DecimalPlain(k);
    assert "/dev/loop" + Decimal(n) + "p" + Decimal(k) == "/dev/loop" + x;
    LoopBasename(x);
    SplitAfterPiece(Decimal(n), Decimal(k), 'p');
    SplitFree(Decimal(k), 'p');
    DecimalRoundTrip(k);
  }

  /** A whole loop device `/dev/loopN` reads as number `N`. */
  lemma WholeDeviceNumber(n: nat)
    ensures PartitionNumber("/dev/loop" + Decimal(n)) == Some(n)
  {
    DecimalPlain(n);
    LoopBasename(Decimal(n));
    SplitFree(Decimal(n), 'p');
    DecimalRoundTrip(n);
  }

  /** The device `flush` detaches: from the first loop device, the name after
      `loop` up to its first `p`, or all of it when it has no `p`; with no
      loop device at all, the text of `None` is formatted in. */
  function RootLoopDevice(devs: seq<string>): string
  {
    if devs == [] then "/dev/loopNone"
    else
      var l := Drop4(Basename(devs[0]));
      "/dev/loop" + (if 'p' in l then Split(l, 'p')[0] else l)
  }

  /** The root named by a first device `/dev/loop` + `x`. */
  lemma RootOfName(x: string, rest: seq<string>)
    requires '/' !in x
    ensures RootLoopDevice(["/dev/loop" + x] + rest) == "/dev/loop" + (if 'p' in x then Split(x, 'p')[0] else x)
  {
    LoopBasename(x);
  }

  /** The root of `/dev/loopNpK` is `/dev/loopN`. */
  lemma RootOfPartition(n: nat, k: nat, rest: seq<string>)
    ensures RootLoopDevice(["/dev/loop" + Decimal(n) + "p" + Decimal(k)] + rest) == "/dev/loop" + Decimal(n)
  {
    DecimalPlain(n);
    DecimalPlain(k);
    var x := Decimal(n) + "p" + Decimal(k);
    assert "/dev/loop" + Decimal(n) + "p" + Decimal(k) == "/dev/loop" + x;
    assert '/' !in x;
    RootOfName(x, rest);
    assert x[|Decimal(n)|] == 'p';
    SplitAfterPiece(Decimal(n), Decimal(k), 'p');
  }

  /** The root of a whole device `/dev/loopN` is itself. */
  lemma RootOfWhole(n: nat, rest: seq<string>)
    ensures RootLoopDevice(["/dev/loop" + Decimal(n)] + rest) == "/dev/loop" + Decimal(n)
  {
    DecimalPlain(n);
    RootOfName(Decimal(n), rest);
  }

  // ---------------------------------------------------------------------
  // MountManager

  /** An `ImagePtr`. It has no `__eq__` or `__hash__` of its own, so two
      `ImagePtr` objects are the same key exactly when they are the same object; `id`
      tells objects with equal fields apart. */
  datatype ImagePtr = ImagePtr(id: nat, scheme: string, path: string, imgType: int)

  /** One item of the ordered mount store. */
  datatype Entry = Entry(image: ImagePtr, mount: Mount)

  ghost predicate WfStore(store: seq<Entry>)
  {
    (forall i, j :: 0 <= i < j < |store| ==> store[i].image != store[j].image) &&
    (forall i :: 0 <= i < |store| ==> WfMount(store[i].mount))
  }

  /** `self._mountstore[img] = m` on an `OrderedDict`: an existing key keeps
      its place and gets the new value, a new key goes last. */
  function StoreAt(store: seq<Entry>, img: ImagePtr, m: Mount): (r: seq<Entry>)
    requires WfStore(store) && WfMount(m)
    ensures WfStore(r)
    ensures Entry(img, m) in r
    ensures forall e :: e in r && e.image != img ==> e in store
    ensures forall e :: e in store && e.image != img ==> e in r
    decreases |store|
  {
    if store == [] then [Entry(img, m)]
    else if store[0].image == img then [Entry(img, m)] + store[1..]
    else
      var t := StoreAt(store[1..], img, m);
      assert forall e :: e in t && e.image != img ==> e in store[1..];
      [store[0]] + t
  }

  /** The keys a dict lookup can be given: an `ImagePtr`, or a text. */
  datatype Key = Ptr(ptr: ImagePtr) | Str(text: string)

  /** `get_mountpoint(key)`: `self._mountstore.get(key)`. */
  function MountpointByKey(store: seq<Entry>, key: Key): Option<Mount>
    decreases |store|
  {
    if store == [] then None
    else if Ptr(store[0].image) == key then Some(store[0].mount)
    else MountpointByKey(store[1..], key)
  }

  /** Looked up by the `ImagePtr` itself, a stored image is found with the
      mount last stored for it. */
  lemma {:induction false} StoredByPtr(store: seq<Entry>, img: ImagePtr, m: Mount)
    requires WfStore(store) && WfMount(m)
    ensures MountpointByKey(StoreAt(store, img, m), Ptr(img)) == Some(m)
    decreases |store|
  {
    if store != [] && store[0].image != img {
      assert WfStore(store[1..]) by {
        assert forall k :: 0 <= k < |store[1..]| ==> store[1..][k] == store[k + 1];
      }
      StoredByPtr(store[1..], img, m);
    }
  }

  /** As written, the only caller looks up `img_ptr.path`, a text, in a store
      keyed by `ImagePtr` objects: the lookup never finds anything, even for
      an image that is in the store. */
  lemma PathLookupMisses(store: seq<Entry>, path: string)
    ensures MountpointByKey(store, Str(path)) == None
    decreases |store|
  {
    if store != [] {
      PathLookupMisses(store[1..], path);
    }
  }

  /** The lookup by path the caller evidently intends: the mount of the
      first stored image at `path`. */
  function MountpointByPath(store: seq<Entry>, path: string): (r: Option<Mount>)
    ensures r.Some? <==> exists k :: 0 <= k < |store| && store[k].image.path == path
    ensures r.Some? ==> exists k :: 0 <= k < |store| && store[k].image.path == path && r.value == store[k].mount
    decreases |store|
  {
    if store == [] then None
    else if store[0].image.path == path then Some(store[0].mount)
    else
      var r := MountpointByPath(store[1..], path);
      assert forall k :: 1 <= k < |store| ==> store[k] == store[1..][k - 1];
      r
  }

  /** Once an image is stored, the intended lookup by its path finds the
      mount just stored, provided no other stored image has that path. */
  lemma {:induction false} StoredMountFound(store: seq<Entry>, img: ImagePtr, m: Mount)
    requires WfStore(store) && WfMount(m)
    requires forall k :: 0 <= k < |store| && store[k].image.path == img.path ==> store[k].image == img
    ensures MountpointByPath(StoreAt(store, img, m), img.path) == Some(m)
    decreases |store|
  {
    if store != [] && store[0].image != img {
      assert forall k :: 0 <= k < |store[1..]| && store[1..][k].image.path == img.path ==> store[1..][k].image == img by {
        forall k | 0 <= k < |store[1..]| ensures store[1..][k] == store[k + 1] {}
      }
      StoredMountFound(store[1..], img, m);
    }
  }

  /** `get_mountpoints()`: the partitions of every stored mount, in store order. */
  function MountPoints(store: seq<Entry>): seq<string>
    decreases |store|
  {
    if store == [] then [] else store[0].mount.order + MountPoints(store[1..])
  }

  /** A directory is listed exactly when some stored mount holds it. */
  lemma {:induction false} MountPointsMeans(store: seq<Entry>, x: string)
    requires WfStore(store)
    ensures x in MountPoints(store) <==> exists k :: 0 <= k < |store| && x in store[k].mount.partitions
    decreases |store|
  {
    if store != [] {
      assert WfStore(store[1..]) by {
        assert forall k :: 0 <= k < |store[1..]| ==> store[1..][k] == store[k + 1];
      }
      MountPointsMeans(store[1..], x);
      if exists k :: 0 <= k < |store[1..]| && x in store[1..][k].mount.partitions {
        var k :| 0 <= k < |store[1..]| && x in store[1..][k].mount.partitions;
        assert store[k + 1] == store[1..][k];
      }
      if exists k :: 0 <= k < |store| && x in store[k].mount.partitions {
        var k :| 0 <= k < |store| && x in store[k].mount.partitions;
        if k > 0 {
          assert store[1..][k - 1] == store[k];
        }
      }
    }
  }

  /** `get_loop_devices()`: the loop devices of every stored mount. */
  function LoopDevices(store: seq<Entry>): seq<string>
    requires WfStore(store)
    decreases |store|
  {
    if store == [] then []
    else
      assert WfStore(store[1..]) by {
        assert forall k :: 0 <= k < |store[1..]| ==> store[1..][k] == store[k + 1];
      }
      Values(store[0].mount.order, store[0].mount.loopDevices) + LoopDevices(store[1..])
  }

  /** A device is listed exactly when some stored mount records it for one
      of its directories. */
  lemma {:induction false} LoopDevicesMeans(store: seq<Entry>, x: string)
    requires WfStore(store)
    ensures x in LoopDevices(store) <==>
      exists k, p :: 0 <= k < |store| && p in store[k].mount.loopDevices && store[k].mount.loopDevices[p] == x
    decreases |store|
  {
    if store != [] {
      var m := store[0].mount;
      assert WfStore(store[1..]) by {
        assert forall k :: 0 <= k < |store[1..]| ==> store[1..][k] == store[k + 1];
      }
      LoopDevicesMeans(store[1..], x);
      var vs := Values(m.order, m.loopDevices);
      assert x in vs <==> exists p :: p in m.loopDevices && m.loopDevices[p] == x by {
        if x in vs {
          var i :| 0 <= i < |vs| && vs[i] == x;
          assert m.order[i] in m.loopDevices;
        }
        if exists p :: p in m.loopDevices && m.loopDevices[p] == x {
          var p :| p in m.loopDevices && m.loopDevices[p] == x;
          assert p in m.order;
          var i :| 0 <= i < |m.order| && m.order[i] == p;
          assert vs[i] == x;
        }
      }
      if exists k, p :: 0 <= k < |store[1..]| && p in store[1..][k].mount.loopDevices && store[1..][k].mount.loopDevices[p] == x {
        var k, p :| 0 <= k < |store[1..]| && p in store[1..][k].mount.loopDevices && store[1..][k].mount.loopDevices[p] == x;
        assert store[k + 1] == store[1..][k];
      }
      if exists k, p :: 0 <= k < |store| && p in store[k].mount.loopDevices && store[k].mount.loopDevices[p] == x {
        var k, p :| 0 <= k < |store| && p in store[k].mount.loopDevices && store[k].mount.loopDevices[p] == x;
        if k > 0 {
          assert store[1..][k - 1] == store[k];
        }
      }
    }
  }

  /** `get_loop_device_by_mountpoint(mpt)`: the device of the first mount
      that has `mpt`. */
  function LoopDeviceOf(store: seq<Entry>, mpt: string): (r: Option<string>)
    ensures r.Some? <==> exists k :: 0 <= k < |store| && mpt in store[k].mount.loopDevices
    ensures r.Some? ==> exists k :: (0 <= k < |store| && mpt in store[k].mount.loopDevices &&
      r.value == store[k].mount.loopDevices[mpt] &&
      forall j :: 0 <= j < k ==> mpt !in store[j].mount.loopDevices)
    decreases |store|
  {
    if store == [] then None
    else if mpt in store[0].mount.loopDevices then Some(store[0].mount.loopDevices[mpt])
    else
      var r := LoopDeviceOf(store[1..], mpt);
      assert forall k :: 1 <= k < |store| ==> store[k] == store[1..][k - 1];
      r
  }

  /** `get_image_path(mpt)`: the path of the first image whose mount has
      the directory `mpt`. */
  function ImagePath(store: seq<Entry>, mpt: string): (r: Option<string>)
    ensures r.Some? <==> exists k :: 0 <= k < |store| && mpt in store[k].mount.order
    ensures r.Some? ==> exists k :: (0 <= k < |store| && mpt in store[k].mount.order &&
      r.value == store[k].image.path &&
      forall j :: 0 <= j < k ==> mpt !in store[j].mount.order)
    decreases |store|
  {
    if store == [] then None
    else if mpt in store[0].mount.order then Some(store[0].image.path)
    else
      var r := ImagePath(store[1..], mpt);
      assert forall k :: 1 <= k < |store| ==> store[k] == store[1..][k - 1];
      r
  }

  /** The inner loop of `get_partition_mountpoint_by_ord` over the
      directories `ps` of one mount. */
  function OrdIn(m: Mount, ps: seq<string>, num: int): Result<Option<string>, MountFailure>
    requires forall p :: p in ps ==> p in m.loopDevices
    decreases |ps|
  {
    if ps == [] then Ok(None)
    else
      var n := PartitionNumber(m.loopDevices[ps[0]]);
      if n.None? then Err(NotInt(NumberText(m.loopDevices[ps[0]])))
      else if n.value == num then Ok(Some(ps[0]))
      else OrdIn(m, ps[1..], num)
  }

  /** `get_partition_mountpoint_by_ord(num)`. */
  function PartitionByOrd(store: seq<Entry>, num: int): Result<Option<string>, MountFailure>
    requires WfStore(store)
    decreases |store|
  {
    if store == [] then Ok(None)
    else
      assert WfStore(store[1..]) by {
        assert forall k :: 0 <= k < |store[1..]| ==> store[1..][k] == store[k + 1];
      }
      var m := store[0].mount;
      var r := OrdIn(m, m.order, num);
      if r.Err? || r.value.Some? then r else PartitionByOrd(store[1..], num)
  }

  /** A loop device whose partition number reads and is not `num`. */
  ghost predicate OtherNumber(dev: string, num: int)
  {
    PartitionNumber(dev).Some? && PartitionNumber(dev) != Some(num)
  }

  /** In one mount, a directory found has partition number `num`; nothing is
      found exactly when every directory's number reads and differs. */
  lemma {:induction false} OrdInMeans(m: Mount, ps: seq<string>, num: int)
    requires forall p :: p in ps ==> p in m.loopDevices
    ensures OrdIn(m, ps, num).Ok? && OrdIn(m, ps, num).value.Some? ==>
      OrdIn(m, ps, num).value.value in ps &&
      PartitionNumber(m.loopDevices[OrdIn(m, ps, num).value.value]) == Some(num)
    ensures OrdIn(m, ps, num) == Ok(None) <==>
      forall p :: p in ps ==> OtherNumber(m.loopDevices[p], num)
    decreases |ps|
  {
    if ps != [] {
      if OtherNumber(m.loopDevices[ps[0]], num) {
        OrdInSkip(m, ps, num);
        OrdInMeans(m, ps[1..], num);
        assert forall p :: p in ps <==> p == ps[0] || p in ps[1..];
      } else {
        OrdInHead(m, ps, num);
      }
    }
  }

  /** The first directory of `ps` whose number does not read as another one
      decides: `num` there is found, and a number that does not read raises
      the `ValueError` of `int()` with its text. */
  lemma {:induction false} OrdInFirst(m: Mount, ps: seq<string>, num: int, i: nat)
    requires forall p :: p in ps ==> p in m.loopDevices
    requires i < |ps| && !OtherNumber(m.loopDevices[ps[i]], num)
    requires forall j :: 0 <= j < i ==> OtherNumber(m.loopDevices[ps[j]], num)
    ensures OrdIn(m, ps, num) == if PartitionNumber(m.loopDevices[ps[i]]).Some? then Ok(Some(ps[i]))
      else Err(NotInt(NumberText(m.loopDevices[ps[i]])))
  {
    OrdInFrom(m, ps, num, i);
    assert ps[i..][0] == ps[i];
    OrdInHead(m, ps[i..], num);
  }

  /** Directories whose numbers read and differ are passed over. */
  lemma {:induction false} OrdInFrom(m: Mount, ps: seq<string>, num: int, i: nat)
    requires forall p :: p in ps ==> p in m.loopDevices
    requires i <= |ps| && forall j :: 0 <= j < i ==> OtherNumber(m.loopDevices[ps[j]], num)
    ensures forall p :: p in ps[i..] ==> p in m.loopDevices
    ensures OrdIn(m, ps, num) == OrdIn(m, ps[i..], num)
    decreases i
  {
    if i > 0 {
      var t := ps[1..];
      OrdInSkip(m, ps, num);
      forall j | 0 <= j < i - 1 ensures OtherNumber(m.loopDevices[t[j]], num) {
        assert t[j] == ps[j + 1];
      }
      OrdInFrom(m, t, num, i - 1);
      assert t[i - 1..] == ps[i..];
    }
  }

  lemma OrdInHead(m: Mount, ps: seq<string>, num: int)
    requires forall p :: p in ps ==> p in m.loopDevices
    requires ps != [] && !OtherNumber(m.loopDevices[ps[0]], num)
    ensures OrdIn(m, ps, num) == if PartitionNumber(m.loopDevices[ps[0]]).Some? then Ok(Some(ps[0]))
      else Err(NotInt(NumberText(m.loopDevices[ps[0]])))
  {
  }

  lemma OrdInSkip(m: Mount, ps: seq<string>, num: int)
    requires forall p :: p in ps ==> p in m.loopDevices
    requires ps != [] && OtherNumber(m.loopDevices[ps[0]], num)
    ensures OrdIn(m, ps, num) == OrdIn(m, ps[1..], num)
    ensures forall p :: p in ps[1..] ==> p in m.loopDevices
  {
  }

  /** The mounts are searched in store order: the first mount in which the
      search does not come back empty gives the answer of the whole store. */
  lemma {:induction false} PartitionByOrdFirst(store: seq<Entry>, num: int, k: nat)
    requires WfStore(store) && k < |store|
    requires forall j, p :: 0 <= j < k && p in store[j].mount.order ==> OtherNumber(store[j].mount.loopDevices[p], num)
    requires OrdIn(store[k].mount, store[k].mount.order, num) != Ok(None)
    ensures PartitionByOrd(store, num) == OrdIn(store[k].mount, store[k].mount.order, num)
  {
    StoreFrom(store, num, k);
    var rest := store[k..];
    assert rest[0] == store[k];
    StoreFirst(rest, num);
  }

  /** Mounts in which every directory's number reads and differs are passed
      over. */
  lemma {:induction false} StoreFrom(store: seq<Entry>, num: int, k: nat)
    requires WfStore(store) && k <= |store|
    requires forall j, p :: 0 <= j < k && p in store[j].mount.order ==> OtherNumber(store[j].mount.loopDevices[p], num)
    ensures WfStore(store[k..]) && PartitionByOrd(store, num) == PartitionByOrd(store[k..], num)
    decreases k
  {
    if k == 0 {
      assert store[0..] == store;
    } else {
      StoreFirst(store, num);
      var m := store[0].mount;
      OrdInMeans(m, m.order, num);
      forall j, p | 0 <= j < k - 1 && p in store[1..][j].mount.order
        ensures OtherNumber(store[1..][j].mount.loopDevices[p], num)
      {
        assert store[1..][j] == store[j + 1];
      }
      StoreFrom(store[1..], num, k - 1);
      assert store[1..][k - 1..] == store[k..];
    }
  }

  /** Over the store, a directory found belongs to a stored mount and has
      partition number `num`; nothing is found exactly when every stored
      directory's number reads and differs from `num`. */
  lemma PartitionByOrdMeans(store: seq<Entry>, num: int)
    requires WfStore(store)
    ensures PartitionByOrd(store, num).Ok? && PartitionByOrd(store, num).value.Some? ==>
      exists k :: 0 <= k < |store| && PartitionByOrd(store, num).value.value in store[k].mount.partitions &&
        PartitionNumber(store[k].mount.loopDevices[PartitionByOrd(store, num).value.value]) == Some(num)
    ensures PartitionByOrd(store, num) == Ok(None) <==>
      forall k, p :: 0 <= k < |store| && p in store[k].mount.order ==>
        OtherNumber(store[k].mount.loopDevices[p], num)
  {
    PartitionByOrdFound(store, num);
    PartitionByOrdNone(store, num);
  }

  /** The first mount of the store is searched first, then the rest. */
  lemma StoreFirst(store: seq<Entry>, num: int)
    requires WfStore(store) && store != []
    ensures WfStore(store[1..]) && forall k :: 0 <= k < |store[1..]| ==> store[1..][k] == store[k + 1]
    ensures var r := OrdIn(store[0].mount, store[0].mount.order, num);
      PartitionByOrd(store, num) == if r.Err? || r.value.Some? then r else PartitionByOrd(store[1..], num)
  {
    assert WfStore(store[1..]) by {
      assert forall k :: 0 <= k < |store[1..]| ==> store[1..][k] == store[k + 1];
    }
  }

  lemma {:induction false} PartitionByOrdFound(store: seq<Entry>, num: int)
    requires WfStore(store)
    ensures PartitionByOrd(store, num).Ok? && PartitionByOrd(store, num).value.Some? ==>
      exists k :: 0 <= k < |store| && PartitionByOrd(store, num).value.value in store[k].mount.partitions &&
        PartitionNumber(store[k].mount.loopDevices[PartitionByOrd(store, num).value.value]) == Some(num)
    decreases |store|
  {
    if store != [] {
      StoreFirst(store, num);
      var t := store[1..];
      var m := store[0].mount;
      var r := OrdIn(m, m.order, num);
      if r == Ok(None) {
        PartitionByOrdFound(t, num);
        if PartitionByOrd(t, num).Ok? && PartitionByOrd(t, num).value.Some? {
          var p := PartitionByOrd(t, num).value.value;
          var k :| 0 <= k < |t| && p in t[k].mount.partitions &&
            PartitionNumber(t[k].mount.loopDevices[p]) == Some(num);
          assert store[k + 1] == t[k];
        }
      } else if r.Ok? {
        OrdInMeans(m, m.order, num);
        var p := r.value.value;
        assert p in store[0].mount.partitions;
      }
    }
  }

  lemma {:induction false} PartitionByOrdNone(store: seq<Entry>, num: int)
    requires WfStore(store)
    ensures PartitionByOrd(store, num) == Ok(None) <==>
      forall k, p :: 0 <= k < |store| && p in store[k].mount.order ==>
        OtherNumber(store[k].mount.loopDevices[p], num)
    decreases |store|
  {
    if store != [] {
      StoreFirst(store, num);
      var t := store[1..];
      var m := store[0].mount;
      OrdInMeans(m, m.order, num);
      PartitionByOrdNone(t, num);
      if OrdIn(m, m.order, num) == Ok(None) {
        if forall k, p :: 0 <= k < |t| && p in t[k].mount.order ==>
            OtherNumber(t[k].mount.loopDevices[p], num) {
          forall k, p | 0 <= k < |store| && p in store[k].mount.order
            ensures OtherNumber(store[k].mount.loopDevices[p], num)
          {
            if k > 0 { assert store[k] == t[k - 1]; }
          }
        }
        if forall k, p :: 0 <= k < |store| && p in store[k].mount.order ==>
            OtherNumber(store[k].mount.loopDevices[p], num) {
          forall k, p | 0 <= k < |t| && p in t[k].mount.order
            ensures OtherNumber(t[k].mount.loopDevices[p], num)
          {
            assert t[k] == store[k + 1];
          }
        }
      } else {
        var p :| p in m.order && !OtherNumber(m.loopDevices[p], num);
        assert p in store[0].mount.order && !OtherNumber(store[0].mount.loopDevices[p], num);
      }
    }
  }

  /** `MountManager`: the ordered store of mounted images and the cached
      mount data. */
  class MountManager {
    var store: seq<Entry>
    var mountData: MountData?

    ghost predicate Valid()
      reads this
    {
      WfStore(store)
    }

    /** The object `__new__` creates the first time: an empty store and no
        mount data. */
    constructor ()
      ensures Valid() && store == [] && mountData == null
    {
      store := [];
      mountData := null;
    }

    /** `self._mountstore[img_ptr] = mpt`, the bookkeeping step of mounting an
        image. */
    method Put(img: ImagePtr, mp: MountPoint)
      modifies this
      requires Valid() && mp.Valid()
      ensures Valid() && store == StoreAt(old(store), img, mp.State()) && mountData == old(mountData)
    {
      store := StoreAt(store, img, mp.State());
    }

    /** `get_mountpoints()`. */
    method GetMountpoints() returns (r: seq<string>)
      ensures r == MountPoints(store)
    {
      r := [];
      var rest := store;
      while rest != []
        invariant MountPoints(store) == r + MountPoints(rest)
        decreases |rest|
      {
        r := r + rest[0].mount.order;
        rest := rest[1..];
      }
    }

    /** `get_loop_devices()`. */
    method GetLoopDevices() returns (r: seq<string>)
      requires Valid()
      ensures r == LoopDevices(store)
    {
      r := [];
      var rest := store;
      while rest != []
        invariant WfStore(rest) && LoopDevices(store) == r + LoopDevices(rest)
        decreases |rest|
      {
        assert WfStore(rest[1..]) by {
          assert forall k :: 0 <= k < |rest[1..]| ==> rest[1..][k] == rest[k + 1];
        }
        r := r + Values(rest[0].mount.order, rest[0].mount.loopDevices);
        rest := rest[1..];
      }
    }

    /** `get_loop_device_by_mountpoint(mpt)`. */
    method GetLoopDeviceByMountpoint(mpt: string) returns (r: Option<string>)
      ensures r == LoopDeviceOf(store, mpt)
    {
      var rest := store;
      while rest != []
        invariant LoopDeviceOf(store, mpt) == LoopDeviceOf(rest, mpt)
        decreases |rest|
      {
        var dev := LoopDevice(rest[0].mount, mpt);
        if dev.Some? {
          return dev;
        }
        rest := rest[1..];
      }
      return None;
    }

    /** `get_mountpoint(img)`. */
    method GetMountpoint(img: Key) returns (r: Option<Mount>)
      ensures r == MountpointByKey(store, img)
    {
      var rest := store;
      while rest != []
        invariant MountpointByKey(store, img) == MountpointByKey(rest, img)
        decreases |rest|
      {
        if Ptr(rest[0].image) == img {
          return Some(rest[0].mount);
        }
        rest := rest[1..];
      }
      return None;
    }

    /** `get_image_path(mpt)`: both loops, the inner one over the partitions
        of one mount. */
    method GetImagePath(mpt: string) returns (r: Option<string>)
      ensures r == ImagePath(store, mpt)
    {
      var rest := store;
      while rest != []
        invariant ImagePath(store, mpt) == ImagePath(rest, mpt)
        decreases |rest|
      {
        var ps := rest[0].mount.order;
        var i := 0;
        while i < |ps|
          invariant 0 <= i <= |ps| && mpt !in ps[..i]
        {
          if mpt == ps[i] {
            return Some(rest[0].image.path);
          }
          i := i + 1;
        }
        assert ps[..i] == ps;
        rest := rest[1..];
      }
      return None;
    }

    /** `is_writable(mountpoint)`: the decorator first reads `mount`
        (here `mountText`) when no mount data is cached. */
    method IsWritable(mountpoint: string, mountText: string) returns (r: Result<bool, MountFailure>)
      modifies this`mountData
      ensures store == old(store)
      ensures old(mountData) != null ==> mountData == old(mountData)
      ensures old(mountData) == null ==> fresh(mountData) && mountData.records == ParseMount(mountText)
      ensures mountData != null && var a := AttrsBy(mountData.records, 1, mountpoint);
        (a.Err? ==> r == Err(a.error)) && (a.Ok? ==> r == Ok(Writable(a.value)))
    {
      if mountData == null {
        mountData := new MountData(mountText);
      }
      var attrs := mountData.GetAttrsByMpt(mountpoint);
      if attrs.Err? {
        return Err(attrs.error);
      }
      return Ok(Writable(attrs.value));
    }

    /** `get_partition_mountpoint_by_ord(num)`. */
    method GetPartitionMountpointByOrd(num: int) returns (r: Result<Option<string>, MountFailure>)
      requires Valid()
      ensures r == PartitionByOrd(store, num)
    {
      var rest := store;
      while rest != []
        invariant WfStore(rest) && PartitionByOrd(store, num) == PartitionByOrd(rest, num)
        decreases |rest|
      {
        assert WfStore(rest[1..]) by {
          assert forall k :: 0 <= k < |rest[1..]| ==> rest[1..][k] == rest[k + 1];
        }
        var m := rest[0].mount;
        var hit := OrdInLoop(m, num);
        if hit.Err? || hit.value.Some? {
          return hit;
        }
        rest := rest[1..];
      }
      return Ok(None);
    }

    /** `flush()`: every stored directory is unmounted (the list returned) and
        the root loop device derived from the first loop device is detached
        (the device returned); the mount data is dropped, the store is kept. */
    method Flush() returns (unmounted: seq<string>, root: string)
      modifies this
      requires Valid()
      ensures Valid() && store == old(store) && mountData == null
      ensures unmounted == MountPoints(store)
      ensures root == RootLoopDevice(LoopDevices(store))
    {
      unmounted := GetMountpoints();
      var devs := GetLoopDevices();
      var l: Option<string> := None;
      if devs != [] {
        var b := Drop4(Basename(devs[0]));
        if 'p' in b {
          l := Some(Split(b, 'p')[0]);
        } else {
          l := Some(b);
        }
      }
      root := "/dev/loop" + (if l.Some? then l.value else "None");
      mountData := null;
    }
  }

  /** The inner loop of `get_partition_mountpoint_by_ord` over one mount. */
  method OrdInLoop(m: Mount, num: int) returns (r: Result<Option<string>, MountFailure>)
    requires WfMount(m)
    ensures r == OrdIn(m, m.order, num)
  {
    var rest := m.order;
    while rest != []
      invariant forall p :: p in rest ==> p in m.loopDevices
      invariant OrdIn(m, m.order, num) == OrdIn(m, rest, num)
      decreases |rest|
    {
      var dev := m.loopDevices[rest[0]];
      var pieces := Split(Drop4(Basename(dev)), 'p');
      var n := ParseInt(pieces[|pieces| - 1]);
      if n.None? {
        return Err(NotInt(pieces[|pieces| - 1]));
      }
      if n.value == num {
        return Ok(Some(rest[0]));
      }
      rest := rest[1..];
    }
    return Ok(None);
  }

  /** The `MountManager` class object, whose `_instance` makes it a
      singleton. */
  class ManagerClass {
    var instance: MountManager?

    constructor ()
      ensures instance == null
    {
      instance := null;
    }

    /** `MountManager()`: the instance made by the first call, every time. */
    method New() returns (m: MountManager)
      modifies this
      ensures old(instance) != null ==> m == old(instance) && instance == old(instance)
      ensures old(instance) == null ==> fresh(m) && m.Valid() && m.store == [] && m.mountData == null && instance == m
    {
      if instance == null {
        instance := new MountManager();
      }
      m := instance;
    }

    /** Two calls give the same object. */
    method NewTwice() returns (a: MountManager, b: MountManager)
      modifies this
      ensures a == b && instance == a
    {
      a := New();
      b := New();
    }
  }
}
