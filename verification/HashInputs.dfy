/**
 * The byte streams that two scripts feed to SHA-256 to name a source tree.
 * Each stream can be decoded, so different trees feed different bytes; the
 * hash itself is a parameter.
 */
module HashInputs {
  import opened LittleEndian
  import opened Wrappers

  // ----- Fixed-width big-endian numbers

  function BigEndian(n: nat, v: nat): (b: seq<byte>)
    ensures |b| == n
  {
    if n == 0 then [] else BigEndian(n - 1, v / 256) + [v % 256]
  }

  function Number(b: seq<byte>): nat {
    if b == [] then 0 else 256 * Number(b[..|b| - 1]) + b[|b| - 1]
  }

  lemma {:induction false} NumberOfBigEndian(n: nat, v: nat)
    requires v < Pow256(n)
    ensures Number(BigEndian(n, v)) == v
  {
    if n != 0 {
      NumberOfBigEndian(n - 1, v / 256);
      assert BigEndian(n, v)[..n - 1] == BigEndian(n - 1, v / 256);
    }
  }

  /** The four bytes of a number, the highest first. */
  function FourBytes(v: nat): seq<byte> { [v / 16777216 % 256, v / 65536 % 256, v / 256 % 256, v % 256] }

  lemma BigEndianStep(n: nat, v: nat)
    ensures BigEndian(0, v) == []
    ensures BigEndian(n + 1, v) == BigEndian(n, v / 256) + [v % 256]
  {
  }

  lemma FourMore(n: nat, v: nat)
    ensures BigEndian(n + 4, v) == BigEndian(n, v / 4294967296) + FourBytes(v)
  {
    hide BigEndian;
    BigEndianStep(n + 3, v);
    BigEndianStep(n + 2, v / 256);
    BigEndianStep(n + 1, v / 65536);
    BigEndianStep(n, v / 16777216);
    assert v / 256 / 256 == v / 65536 && v / 65536 / 256 == v / 16777216 && v / 16777216 / 256 == v / 4294967296;
  }

  /** Lengths are written the highest byte first. */
  lemma BytesSpelled(v: nat)
    ensures BigEndian(4, v) == [v / 16777216 % 256, v / 65536 % 256, v / 256 % 256, v % 256]
    ensures BigEndian(8, v)
         == [v / 72057594037927936 % 256, v / 281474976710656 % 256, v / 1099511627776 % 256, v / 4294967296 % 256,
             v / 16777216 % 256, v / 65536 % 256, v / 256 % 256, v % 256]
  {
    hide BigEndian;
    BigEndianStep(0, v / 4294967296);
    BigEndianStep(0, v / 18446744073709551616);
    FourMore(0, v);
    FourMore(4, v);
    FourMore(0, v / 4294967296);
    assert v / 4294967296 / 4294967296 == v / 18446744073709551616;
    HighBytes(v);
  }

  lemma HighBytes(v: nat)
    ensures FourBytes(v / 4294967296)
         == [v / 72057594037927936 % 256, v / 281474976710656 % 256, v / 1099511627776 % 256, v / 4294967296 % 256]
  {
    var h := v / 4294967296;
    assert h / 16777216 == v / 72057594037927936;
    assert h / 65536 == v / 281474976710656;
    assert h / 256 == v / 1099511627776;
  }

  // ----- Length-prefixed files

  datatype File = File(name: seq<byte>, data: seq<byte>)

  /** `to_bytes` has 4 bytes for the length of a name and 8 for the length of its data. */
  predicate Fits(file: File) { |file.name| < TWO_32 && |file.data| < TWO_64 }

  predicate AllFit(files: seq<File>) { forall i :: 0 <= i < |files| ==> Fits(files[i]) }

  function Framed(file: File): seq<byte> {
    BigEndian(4, |file.name|) + file.name + BigEndian(8, |file.data|) + file.data
  }

  function Stream(files: seq<File>): seq<byte> {
    if files == [] then [] else Stream(files[..|files| - 1]) + Framed(files[|files| - 1])
  }

  /** One frame and what follows it. */
  function Unframe(s: seq<byte>): Option<(File, seq<byte>)> {
    if |s| < 4 || |s| - 4 < Number(s[..4]) then None
    else
      var name := s[4..4 + Number(s[..4])];
      var rest := s[4 + Number(s[..4])..];
      if |rest| < 8 || |rest| - 8 < Number(rest[..8]) then None
      else
        var end := 8 + Number(rest[..8]);
        Some((File(name, rest[8..end]), rest[end..]))
  }

  function Decode(s: seq<byte>): Option<seq<File>>
    decreases |s|
  {
    if s == [] then Some([])
    else
      match Unframe(s)
      case None => None
      case Some((file, rest)) =>
        match Decode(rest)
        case None => None
        case Some(files) => Some([file] + files)
  }

  lemma UnframeOfFramed(file: File, rest: seq<byte>)
    requires Fits(file)
    ensures Unframe(Framed(file) + rest) == Some((file, rest))
  {
    hide BigEndian, Number, Pow256;
    WordSizes();
    var s := Framed(file) + rest;
    var n, d := BigEndian(4, |file.name|), BigEndian(8, |file.data|);
    NumberOfBigEndian(4, |file.name|);
    NumberOfBigEndian(8, |file.data|);
    assert s[..4] == n;
    assert s[4..4 + |file.name|] == file.name;
    var tail := s[4 + |file.name|..];
    assert tail == d + file.data + rest;
    assert tail[..8] == d;
    assert tail[8..8 + |file.data|] == file.data;
    assert tail[8 + |file.data|..] == rest;
  }

  lemma StreamSnoc(files: seq<File>, last: File)
    ensures Stream(files + [last]) == Stream(files) + Framed(last)
  {
    hide Framed;
    assert (files + [last])[..|files|] == files;
  }

  lemma NoStream()
    ensures Stream([]) == []
  {
  }

  lemma {:induction false} StreamCons(first: File, rest: seq<File>)
    ensures Stream([first] + rest) == Framed(first) + Stream(rest)
  {
    hide Stream, Framed;
    NoStream();
    if rest == [] {
      assert [first] + rest == [] + [first];
      StreamSnoc([], first);
    } else {
      var n := |rest| - 1;
      StreamCons(first, rest[..n]);
      StreamSnoc([first] + rest[..n], rest[n]);
      StreamSnoc(rest[..n], rest[n]);
      assert [first] + rest == ([first] + rest[..n]) + [rest[n]] && rest == rest[..n] + [rest[n]];
    }
  }

  lemma StreamFromFront(files: seq<File>)
    requires files != []
    ensures Stream(files) == Framed(files[0]) + Stream(files[1..])
  {
    hide Stream, Framed;
    assert files == [files[0]] + files[1..];
    StreamCons(files[0], files[1..]);
  }

  /** The stream decodes to the files that were fed. */
  lemma {:induction false} DecodeOfStream(files: seq<File>)
    requires AllFit(files)
    ensures Decode(Stream(files)) == Some(files)
  {
    hide Framed, Unframe;
    if files != [] {
      StreamFromFront(files);
      DecodeOfStream(files[1..]);
      UnframeOfFramed(files[0], Stream(files[1..]));
      FramedIsLong(files[0]);
      assert files == [files[0]] + files[1..];
    }
  }

  lemma FramedIsLong(file: File)
    ensures |Framed(file)| >= 12
  {
  }

  /** Files follow one another; each is its name's length in four bytes, its name, its length in eight, its data. */
  lemma StreamSpelled(files: seq<File>, name: seq<byte>, data: seq<byte>)
    ensures Stream([]) == []
    ensures var n, d := |name|, |data|;
            Stream(files + [File(name, data)])
            == Stream(files) + [n / 16777216 % 256, n / 65536 % 256, n / 256 % 256, n % 256] + name
               + [d / 72057594037927936 % 256, d / 281474976710656 % 256, d / 1099511627776 % 256,
                  d / 4294967296 % 256, d / 16777216 % 256, d / 65536 % 256, d / 256 % 256, d % 256] + data
  {
    hide BigEndian, Stream;
    NoStream();
    BytesSpelled(|name|);
    BytesSpelled(|data|);
    FeedFrame(files, File(name, data));
  }

  type Tree = map<seq<byte>, seq<byte>>

  /** A listing names each file of the tree once. */
  predicate Lists<T>(order: seq<seq<byte>>, tree: map<seq<byte>, T>) {
    && (forall i :: 0 <= i < |order| ==> order[i] in tree)
    && (forall i, j :: 0 <= i < j < |order| ==> order[i] != order[j])
    && (forall name :: name in tree ==> name in order)
  }

  function Listed(order: seq<seq<byte>>, tree: Tree): (r: seq<File>)
    requires forall i :: 0 <= i < |order| ==> order[i] in tree
    ensures |r| == |order|
    ensures forall i :: 0 <= i < |r| ==> r[i] == File(order[i], tree[order[i]])
  {
    seq(|order|, i requires 0 <= i < |order| => File(order[i], tree[order[i]]))
  }

  /** The digest loop: fails exactly when the length of a name or of its data has no encoding. */
  method TreeStream(tree: Tree, order: seq<seq<byte>>) returns (r: Result<seq<byte>>)
    requires Lists(order, tree)
    ensures r.Ok? <==> forall name :: name in tree ==>
              |name| < 4294967296 && |tree[name]| < 18446744073709551616
    ensures r.Ok? <==> AllFit(Listed(order, tree))
    ensures r.Ok? ==> r.value == Stream(Listed(order, tree))
  {
    hide Stream, BigEndian;
    var stream: seq<byte> := [];
    ghost var files := Listed(order, tree);
    NoStream();
    FitsExactly(order, tree);
    for n := 0 to |order|
      invariant AllFit(files[..n])
      invariant stream == Stream(files[..n])
    {
      var name := order[n];
      var data := tree[name];
      assert files[..n + 1][..n] == files[..n] && files[..n + 1][n] == File(name, data);
      if |name| >= TWO_32 || |data| >= TWO_64 {
        assert !Fits(files[n]);
        return Err("int too big to convert");
      }
      stream := stream + BigEndian(4, |name|) + name + BigEndian(8, |data|) + data;
      FeedFrame(files[..n], File(name, data));
      assert files[..n + 1] == files[..n] + [File(name, data)];
    }
    assert files[..|order|] == files;
    return Ok(stream);
  }

  lemma FitsExactly(order: seq<seq<byte>>, tree: Tree)
    requires Lists(order, tree)
    ensures AllFit(Listed(order, tree)) <==>
            forall name :: name in tree ==> |name| < 4294967296 && |tree[name]| < 18446744073709551616
  {
    var files := Listed(order, tree);
    if AllFit(files) {
      forall name | name in tree
        ensures |name| < 4294967296 && |tree[name]| < 18446744073709551616
      {
        var i :| 0 <= i < |order| && order[i] == name;
        assert Fits(files[i]);
      }
    }
  }

  lemma FeedFrame(files: seq<File>, file: File)
    ensures Stream(files + [file])
            == Stream(files) + BigEndian(4, |file.name|) + file.name + BigEndian(8, |file.data|) + file.data
  {
    hide BigEndian;
    assert (files + [file])[..|files|] == files;
  }

  /** Trees that feed the same bytes are the same tree, listed in the same order. */
  lemma DistinctTreesFeedDistinctStreams(a: Tree, orderA: seq<seq<byte>>, b: Tree, orderB: seq<seq<byte>>)
    requires Lists(orderA, a) && Lists(orderB, b)
    requires AllFit(Listed(orderA, a)) && AllFit(Listed(orderB, b))
    requires Stream(Listed(orderA, a)) == Stream(Listed(orderB, b))
    ensures a == b && orderA == orderB
  {
    hide Stream, Fits;
    var files := Listed(orderA, a);
    DecodeOfStream(files);
    DecodeOfStream(Listed(orderB, b));
    assert files == Listed(orderB, b);
    forall i | 0 <= i < |files|
      ensures orderA[i] == orderB[i] && a[orderA[i]] == b[orderA[i]]
    {
      assert files[i] == File(orderA[i], a[orderA[i]]);
      assert files[i] == File(orderB[i], b[orderB[i]]);
    }
    assert orderA == orderB;
    SameListing(orderA, a, b);
  }

  lemma SameListing(order: seq<seq<byte>>, a: Tree, b: Tree)
    requires Lists(order, a) && Lists(order, b)
    requires forall i :: 0 <= i < |order| ==> a[order[i]] == b[order[i]]
    ensures a == b
  {
    assert a.Keys == b.Keys;
    forall name | name in a
      ensures a[name] == b[name]
    {
      var i :| 0 <= i < |order| && order[i] == name;
      assert a[order[i]] == b[order[i]];
    }
  }

  // ----- NUL-terminated records

  /** What the walk finds at a name: a symbolic link or a regular file. */
  datatype Node = Link(target: seq<byte>) | Regular(contents: seq<byte>)

  /** What the stream says of it: the target, or the digest in hexadecimal. */
  datatype Kind = Symlink | Contents

  datatype Record = Record(name: seq<byte>, kind: Kind, payload: seq<byte>)

  /** "symlink" and "file" in ASCII. */
  function Tag(kind: Kind): seq<byte> {
    if kind.Symlink? then [115, 121, 109, 108, 105, 110, 107] else [102, 105, 108, 101]
  }

  function Ascii(text: string): seq<byte>
    requires forall i :: 0 <= i < |text| ==> text[i] as int < 128
  {
    seq(|text|, i requires 0 <= i < |text| => text[i] as int)
  }

  /** The record of a link is its name, `symlink` and its target; that of a file its name, `file` and its digest. */
  lemma RecordSpelled(name: seq<byte>, node: Node, hash: seq<byte> -> seq<byte>)
    ensures Terminated(RecordOf(name, node, hash))
         == match node {
              case Link(target) => name + [0] + Ascii("symlink") + [0] + target + [0]
              case Regular(contents) => name + [0] + Ascii("file") + [0] + hash(contents) + [0]
            }
  {
    TagsSpell();
    hide Tag, Ascii;
  }

  lemma TagsSpell()
    ensures Tag(Symlink) == Ascii("symlink") && Tag(Contents) == Ascii("file")
  {
  }

  predicate NulFree(s: seq<byte>) { forall i :: 0 <= i < |s| ==> s[i] != 0 }

  predicate Clean(records: seq<Record>) {
    forall i :: 0 <= i < |records| ==> NulFree(records[i].name) && NulFree(records[i].payload)
  }

  function Terminated(record: Record): seq<byte> {
    record.name + [0] + Tag(record.kind) + [0] + record.payload + [0]
  }

  function Text(records: seq<Record>): seq<byte> {
    if records == [] then [] else Text(records[..|records| - 1]) + Terminated(records[|records| - 1])
  }

  /** The field that ends at the first NUL, `field` being read already, and the rest. */
  function Field(field: seq<byte>, s: seq<byte>): (r: Option<(seq<byte>, seq<byte>)>)
    ensures r.Some? ==> |r.value.1| < |s|
    decreases |s|
  {
    if s == [] then None
    else if s[0] == 0 then Some((field, s[1..]))
    else Field(field + [s[0]], s[1..])
  }

  function ReadRecord(s: seq<byte>): (r: Option<(Record, seq<byte>)>)
    ensures r.Some? ==> |r.value.1| < |s|
  {
    match Field([], s)
    case None => None
    case Some((name, afterName)) =>
      match Field([], afterName)
      case None => None
      case Some((tag, afterTag)) =>
        match Field([], afterTag)
        case None => None
        case Some((payload, rest)) =>
          if tag == Tag(Symlink) then Some((Record(name, Symlink, payload), rest))
          else if tag == Tag(Contents) then Some((Record(name, Contents, payload), rest))
          else None
  }

  function ReadRecords(s: seq<byte>): Option<seq<Record>>
    decreases |s|
  {
    if s == [] then Some([])
    else
      match ReadRecord(s)
      case None => None
      case Some((record, rest)) =>
        match ReadRecords(rest)
        case None => None
        case Some(records) => Some([record] + records)
  }

  lemma {:induction false} FieldOfTerminated(field: seq<byte>, s: seq<byte>, rest: seq<byte>)
    requires NulFree(s)
    ensures Field(field, s + [0] + rest) == Some((field + s, rest))
    decreases |s|
  {
    var t := s + [0] + rest;
    if s == [] {
      assert t[1..] == rest && field + s == field;
    } else {
      FieldOfTerminated(field + [s[0]], s[1..], rest);
      assert t[1..] == s[1..] + [0] + rest;
      assert field + [s[0]] + s[1..] == field + s;
    }
  }

  lemma ReadOfTerminated(record: Record, rest: seq<byte>)
    requires NulFree(record.name) && NulFree(record.payload)
    ensures ReadRecord(Terminated(record) + rest) == Some((record, rest))
  {
    hide Field;
    var tag := Tag(record.kind);
    var afterTag := record.payload + [0] + rest;
    var afterName := tag + [0] + afterTag;
    assert Terminated(record) + rest == record.name + [0] + afterName;
    FieldOfTerminated([], record.name, afterName);
    FieldOfTerminated([], tag, afterTag);
    FieldOfTerminated([], record.payload, rest);
    assert [] + record.name == record.name && [] + tag == tag && [] + record.payload == record.payload;
    assert |Tag(Symlink)| != |Tag(Contents)|;
  }

  lemma TextSnoc(records: seq<Record>, last: Record)
    ensures Text(records + [last]) == Text(records) + Terminated(last)
  {
    hide Terminated;
    assert (records + [last])[..|records|] == records;
  }

  lemma NoText()
    ensures Text([]) == []
  {
  }

  lemma {:induction false} TextCons(first: Record, rest: seq<Record>)
    ensures Text([first] + rest) == Terminated(first) + Text(rest)
  {
    hide Text, Terminated;
    NoText();
    if rest == [] {
      assert [first] + rest == [] + [first];
      TextSnoc([], first);
    } else {
      var n := |rest| - 1;
      TextCons(first, rest[..n]);
      TextSnoc([first] + rest[..n], rest[n]);
      TextSnoc(rest[..n], rest[n]);
      assert [first] + rest == ([first] + rest[..n]) + [rest[n]] && rest == rest[..n] + [rest[n]];
    }
  }

  lemma TextFromFront(records: seq<Record>)
    requires records != []
    ensures Text(records) == Terminated(records[0]) + Text(records[1..])
  {
    hide Text, Terminated;
    assert records == [records[0]] + records[1..];
    TextCons(records[0], records[1..]);
  }

  /** The text decodes to the records that were fed. */
  lemma {:induction false} ReadOfText(records: seq<Record>)
    requires Clean(records)
    ensures ReadRecords(Text(records)) == Some(records)
  {
    hide Terminated, ReadRecord, NulFree;
    if records != [] {
      TextFromFront(records);
      ReadOfText(records[1..]);
      ReadOfTerminated(records[0], Text(records[1..]));
      TerminatedIsLong(records[0]);
      assert records == [records[0]] + records[1..];
    }
  }

  lemma TerminatedIsLong(record: Record)
    ensures |Terminated(record)| > 0
  {
  }

  type Checkout = map<seq<byte>, Node>

  function RecordOf(name: seq<byte>, node: Node, hash: seq<byte> -> seq<byte>): Record {
    match node
    case Link(target) => Record(name, Symlink, target)
    case Regular(contents) => Record(name, Contents, hash(contents))
  }

  /** The records of the names that are there; a name git lists may be gone or a directory. */
  function RecordsOf(names: seq<seq<byte>>, checkout: Checkout, hash: seq<byte> -> seq<byte>): seq<Record> {
    if names == [] then []
    else
      var n := |names| - 1;
      RecordsOf(names[..n], checkout, hash)
      + if names[n] in checkout then [RecordOf(names[n], checkout[names[n]], hash)] else []
  }

  /** `records` are those of the listed names that are there, in their order, at the places `at`. */
  ghost predicate FedAt(names: seq<seq<byte>>, checkout: Checkout, hash: seq<byte> -> seq<byte>,
                        records: seq<Record>, at: seq<nat>) {
    && |at| == |records|
    && (forall k :: 0 <= k < |at| ==>
          && at[k] < |names| && names[at[k]] in checkout
          && records[k] == RecordOf(names[at[k]], checkout[names[at[k]]], hash))
    && (forall k, l :: 0 <= k < l < |at| ==> at[k] < at[l])
    && forall i :: 0 <= i < |names| && names[i] in checkout ==> i in at
  }

  lemma FedSnoc(names: seq<seq<byte>>, last: seq<byte>, checkout: Checkout, hash: seq<byte> -> seq<byte>,
                records: seq<Record>, at: seq<nat>)
    requires FedAt(names, checkout, hash, records, at)
    ensures last !in checkout ==> FedAt(names + [last], checkout, hash, records, at)
    ensures last in checkout ==>
            FedAt(names + [last], checkout, hash, records + [RecordOf(last, checkout[last], hash)], at + [|names|])
  {
    hide RecordOf;
    var longer, more: seq<nat> := names + [last], at + [|names|];
    assert forall i :: 0 <= i < |names| ==> longer[i] == names[i];
    assert forall i :: i in at ==> i in more;
    assert more[|at|] == |names| && longer[|names|] == last;
  }

  /** One record for each listed name that is there, at its place, and no other. */
  lemma {:induction false} RecordsAreFed(names: seq<seq<byte>>, checkout: Checkout, hash: seq<byte> -> seq<byte>)
    returns (at: seq<nat>)
    ensures FedAt(names, checkout, hash, RecordsOf(names, checkout, hash), at)
  {
    at := [];
    if names != [] {
      var n := |names| - 1;
      var front := RecordsAreFed(names[..n], checkout, hash);
      assert names[..n] + [names[n]] == names;
      RecordsSnoc(names[..n], names[n], checkout, hash);
      hide FedAt, RecordOf, RecordsOf;
      FedSnoc(names[..n], names[n], checkout, hash, RecordsOf(names[..n], checkout, hash), front);
      at := if names[n] in checkout then front + [n] else front;
    }
  }

  /** The text of one more name: the record of what is there, in bytes, or nothing. */
  lemma TextSpelled(names: seq<seq<byte>>, name: seq<byte>, checkout: Checkout, hash: seq<byte> -> seq<byte>)
    ensures Text(RecordsOf([], checkout, hash)) == []
    ensures Text(RecordsOf(names + [name], checkout, hash))
         == Text(RecordsOf(names, checkout, hash))
            + if name !in checkout then []
              else match checkout[name] {
                case Link(target) => name + [0] + Ascii("symlink") + [0] + target + [0]
                case Regular(contents) => name + [0] + Ascii("file") + [0] + hash(contents) + [0]
              }
  {
    hide Text, Terminated, Ascii, RecordOf;
    NoText();
    RecordsSnoc(names, name, checkout, hash);
    var before := RecordsOf(names, checkout, hash);
    if name in checkout {
      RecordSpelled(name, checkout[name], hash);
      TextSnoc(before, RecordOf(name, checkout[name], hash));
    } else {
      assert before + [] == before;
      assert Text(before) + [] == Text(before);
    }
  }

  lemma RecordsSnoc(names: seq<seq<byte>>, name: seq<byte>, checkout: Checkout, hash: seq<byte> -> seq<byte>)
    ensures RecordsOf(names + [name], checkout, hash)
         == RecordsOf(names, checkout, hash)
            + if name in checkout then [RecordOf(name, checkout[name], hash)] else []
  {
    hide RecordOf;
    assert (names + [name])[..|names|] == names;
  }

  /** The identity loop: one record for each listed name that is there, in the listing's order, and their number. */
  method SourceText(names: seq<seq<byte>>, checkout: Checkout, hash: seq<byte> -> seq<byte>)
    returns (text: seq<byte>, included: nat)
    ensures text == Text(RecordsOf(names, checkout, hash))
    ensures included == |RecordsOf(names, checkout, hash)|
    ensures exists records, at: seq<nat> ::
              FedAt(names, checkout, hash, records, at) && text == Text(records) && included == |at|
  {
    hide Terminated, Tag;
    text, included := [], 0;
    for n := 0 to |names|
      invariant text == Text(RecordsOf(names[..n], checkout, hash))
      invariant included == |RecordsOf(names[..n], checkout, hash)|
    {
      var name := names[n];
      assert names[..n + 1][..n] == names[..n] && names[..n + 1][n] == name;
      if name !in checkout {
        assert RecordsOf(names[..n + 1], checkout, hash) == RecordsOf(names[..n], checkout, hash);
        continue;
      }
      ghost var before := RecordsOf(names[..n], checkout, hash);
      ghost var record := RecordOf(name, checkout[name], hash);
      FeedRecord(before, record);
      assert RecordsOf(names[..n + 1], checkout, hash) == before + [record];
      text := text + name + [0];
      match checkout[name] {
        case Link(target) =>
          text := text + Tag(Symlink) + [0] + target;
        case Regular(contents) =>
          text := text + Tag(Contents) + [0] + hash(contents);
      }
      text := text + [0];
      assert text == Text(before + [record]);
      included := included + 1;
    }
    assert names[..|names|] == names;
    ghost var at := RecordsAreFed(names, checkout, hash);
  }

  lemma FeedRecord(records: seq<Record>, record: Record)
    ensures Text(records + [record])
            == Text(records) + record.name + [0] + Tag(record.kind) + [0] + record.payload + [0]
  {
    assert (records + [record])[..|records|] == records;
  }

  /** Names and link targets of a POSIX file system, and hexadecimal digests, hold no NUL. */
  ghost predicate NoNuls(names: seq<seq<byte>>, checkout: Checkout, hash: seq<byte> -> seq<byte>) {
    && (forall i :: 0 <= i < |names| ==> NulFree(names[i]))
    && (forall name :: name in checkout && checkout[name].Link? ==> NulFree(checkout[name].target))
    && (forall contents :: NulFree(hash(contents)))
  }

  lemma {:induction false} RecordsAreClean(names: seq<seq<byte>>, checkout: Checkout, hash: seq<byte> -> seq<byte>)
    requires NoNuls(names, checkout, hash)
    ensures Clean(RecordsOf(names, checkout, hash))
  {
    if names != [] {
      RecordsAreClean(names[..|names| - 1], checkout, hash);
    }
  }

  lemma {:induction false} RecordsNameTheCheckout(names: seq<seq<byte>>, checkout: Checkout,
                                                  hash: seq<byte> -> seq<byte>,
                                                  record: Record)
    ensures record in RecordsOf(names, checkout, hash) <==>
            record.name in names && record.name in checkout
            && record == RecordOf(record.name, checkout[record.name], hash)
  {
    if names != [] {
      var n := |names| - 1;
      RecordsNameTheCheckout(names[..n], checkout, hash, record);
      assert names == names[..n] + [names[n]];
    }
  }

  /** The two checkouts agree at a name: both without it, the same link, or files of one digest. */
  predicate Agree(a: Checkout, b: Checkout, name: seq<byte>, hash: seq<byte> -> seq<byte>) {
    if name in a && name in b then RecordOf(name, a[name], hash) == RecordOf(name, b[name], hash)
    else name !in a && name !in b
  }

  /** Checkouts whose every entry is listed and that feed the same text agree at every name. */
  lemma DistinctCheckoutsFeedDistinctTexts(namesA: seq<seq<byte>>, a: Checkout, namesB: seq<seq<byte>>, b: Checkout,
                                           hash: seq<byte> -> seq<byte>)
    requires NoNuls(namesA, a, hash) && NoNuls(namesB, b, hash)
    requires (forall name :: name in a ==> name in namesA) && (forall name :: name in b ==> name in namesB)
    requires Text(RecordsOf(namesA, a, hash)) == Text(RecordsOf(namesB, b, hash))
    ensures forall name :: Agree(a, b, name, hash)
  {
    hide Text;
    RecordsAreClean(namesA, a, hash);
    RecordsAreClean(namesB, b, hash);
    ReadOfText(RecordsOf(namesA, a, hash));
    ReadOfText(RecordsOf(namesB, b, hash));
    assert RecordsOf(namesA, a, hash) == RecordsOf(namesB, b, hash);
    forall name
      ensures Agree(a, b, name, hash)
    {
      if name in a {
        RecordsNameTheCheckout(namesA, a, hash, RecordOf(name, a[name], hash));
        RecordsNameTheCheckout(namesB, b, hash, RecordOf(name, a[name], hash));
      }
      if name in b {
        RecordsNameTheCheckout(namesA, a, hash, RecordOf(name, b[name], hash));
        RecordsNameTheCheckout(namesB, b, hash, RecordOf(name, b[name], hash));
      }
    }
  }
}
