/** The /sys transport (ysys.c): listing a directory in a canonical order and reading a file. */
module Sysfs {
  import opened Schema

  // ---------------------------------------------------------------------------------------------
  // strcmp order and sorting

  predicate AtMost(a: string, b: string) {
    a == "" || (b != "" && (a[0] < b[0] || (a[0] == b[0] && AtMost(a[1..], b[1..]))))
  }

  /** One name is the start of the other, or they first differ in a character and the smaller one goes first. */
  lemma {:induction false} StrcmpOrder(a: string, b: string)
    ensures AtMost(a, b) <==> a <= b || exists k :: 0 <= k < |a| && k < |b| && a[..k] == b[..k] && a[k] < b[k]
  {
    if a == "" || b == "" {
    } else if a[0] != b[0] {
      if AtMost(a, b) { assert a[..0] == b[..0] && a[0] < b[0]; }
      forall k | 0 < k < |a| && k < |b| ensures a[..k] != b[..k] { assert a[..k][0] != b[..k][0]; }
    } else {
      StrcmpOrder(a[1..], b[1..]);
      assert a == [a[0]] + a[1..] && b == [b[0]] + b[1..];
      SameFirst(a, b);
    }
  }

  lemma SameFirst(a: string, b: string)
    requires a != "" && b != "" && a[0] == b[0]
    ensures (exists k :: 0 <= k < |a| && k < |b| && a[..k] == b[..k] && a[k] < b[k])
       <==> (exists k :: 0 <= k < |a[1..]| && k < |b[1..]| && a[1..][..k] == b[1..][..k] && a[1..][k] < b[1..][k])
  {
    var s, t := a[1..], b[1..];
    forall k | 0 <= k < |s| && k < |t| && s[..k] == t[..k] && s[k] < t[k]
      ensures a[..k + 1] == b[..k + 1] && a[k + 1] < b[k + 1]
    {
      assert a[..k + 1] == [a[0]] + s[..k] && b[..k + 1] == [b[0]] + t[..k];
    }
    forall k | 0 <= k < |a| && k < |b| && a[..k] == b[..k] && a[k] < b[k]
      ensures k > 0 && s[..k - 1] == t[..k - 1] && s[k - 1] < t[k - 1]
    {
      assert s[..k - 1] == a[..k][1..] && t[..k - 1] == b[..k][1..];
    }
  }

  lemma SortedByStrcmp(s: seq<string>)
    requires Sorted(s)
    ensures forall i, j :: 0 <= i < j < |s| ==>
      s[i] <= s[j] || exists k :: 0 <= k < |s[i]| && k < |s[j]| && s[i][..k] == s[j][..k] && s[i][k] < s[j][k]
  {
    forall i, j | 0 <= i < j < |s|
      ensures s[i] <= s[j] || exists k :: 0 <= k < |s[i]| && k < |s[j]| && s[i][..k] == s[j][..k] && s[i][k] < s[j][k]
    {
      StrcmpOrder(s[i], s[j]);
    }
  }

  lemma {:induction false} OrderTotal(a: string, b: string)
    ensures AtMost(a, b) || AtMost(b, a)
    ensures AtMost(a, b) && AtMost(b, a) ==> a == b
  {
    if a != "" && b != "" && a[0] == b[0] {
      OrderTotal(a[1..], b[1..]);
      assert a == [a[0]] + a[1..] && b == [b[0]] + b[1..];
    }
  }

  lemma {:induction false} OrderTransitive(a: string, b: string, c: string)
    requires AtMost(a, b) && AtMost(b, c)
    ensures AtMost(a, c)
  {
    if a != "" && a[0] == b[0] && b[0] == c[0] { OrderTransitive(a[1..], b[1..], c[1..]); }
  }

  ghost predicate Sorted(s: seq<string>) {
    forall i, j :: 0 <= i < j < |s| ==> AtMost(s[i], s[j])
  }

  function Insert(x: string, s: seq<string>): (r: seq<string>)
    ensures multiset(r) == multiset{x} + multiset(s)
  {
    if s == [] || AtMost(x, s[0]) then [x] + s
    else
      assert s == [s[0]] + s[1..];
      [s[0]] + Insert(x, s[1..])
  }

  function Sorting(s: seq<string>): (r: seq<string>)
    ensures multiset(r) == multiset(s)
  {
    if s == [] then [] else
      assert s == [s[0]] + s[1..];
      Insert(s[0], Sorting(s[1..]))
  }

  lemma {:induction false} InsertSorts(x: string, s: seq<string>)
    requires Sorted(s)
    ensures Sorted(Insert(x, s))
  {
    if s == [] {
    } else if AtMost(x, s[0]) {
      forall j | 0 <= j < |s| ensures AtMost(x, s[j]) {
        if j > 0 { OrderTransitive(x, s[0], s[j]); }
      }
    } else {
      InsertSorts(x, s[1..]);
      OrderTotal(x, s[0]);
      var r := Insert(x, s[1..]);
      forall j | 0 <= j < |r| ensures AtMost(s[0], r[j]) {
        assert r[j] in multiset(r);
        assert r[j] == x || r[j] in s[1..];
      }
    }
  }

  lemma {:induction false} InsertingSorts(s: seq<string>)
    ensures Sorted(Sorting(s))
  {
    if s != [] {
      InsertingSorts(s[1..]);
      InsertSorts(s[0], Sorting(s[1..]));
    }
  }

  lemma SortingSorts(s: seq<string>)
    ensures Sorted(Sorting(s))
    ensures forall i, j :: 0 <= i < j < |Sorting(s)| ==>
      var a, b := Sorting(s)[i], Sorting(s)[j];
      a <= b || exists k :: 0 <= k < |a| && k < |b| && a[..k] == b[..k] && a[k] < b[k]
  {
    hide Sorting;
    InsertingSorts(s);
    SortedByStrcmp(Sorting(s));
  }

  /** A list of names has one sorted arrangement. */
  lemma {:induction false} OneArrangement(a: seq<string>, b: seq<string>)
    requires Sorted(a) && Sorted(b) && multiset(a) == multiset(b)
    ensures a == b
  {
    hide AtMost;
    assert |a| == |multiset(a)| && |b| == |multiset(b)|;
    if a != [] {
      SameHead(a, b);
      assert a == [a[0]] + a[1..] && b == [b[0]] + b[1..];
      assert multiset(a[1..]) == multiset(a) - multiset{a[0]};
      assert multiset(b[1..]) == multiset(b) - multiset{b[0]};
      OneArrangement(a[1..], b[1..]);
    }
  }

  lemma SameHead(a: seq<string>, b: seq<string>)
    requires Sorted(a) && Sorted(b) && multiset(a) == multiset(b) && a != [] && b != []
    ensures a[0] == b[0]
  {
    hide AtMost;
    assert a[0] in multiset(b) && b[0] in multiset(a);
    FirstIsLeast(a, b[0]);
    FirstIsLeast(b, a[0]);
    OrderTotal(a[0], b[0]);
  }

  lemma FirstIsLeast(s: seq<string>, x: string)
    requires Sorted(s) && x in s
    ensures AtMost(s[0], x)
  {
    OrderTotal(x, x);
  }

  /** qsort(names, count, …, dirent_cmp) */
  method SortNames(a: array<string>)
    modifies a
    ensures Sorted(a[..]) && multiset(a[..]) == multiset(old(a[..]))
    ensures forall i, j :: 0 <= i < j < a.Length ==>
      a[i] <= a[j] || exists k :: 0 <= k < |a[i]| && k < |a[j]| && a[i][..k] == a[j][..k] && a[i][k] < a[j][k]
  {
    hide AtMost;
    var sorted := Sorting(a[..]);
    InsertingSorts(a[..]);
    assert |sorted| == |multiset(sorted)| == |multiset(a[..])| == a.Length;
    forall i | 0 <= i < a.Length { a[i] := sorted[i]; }
    assert a[..] == sorted;
    SortedByStrcmp(a[..]);
    assert forall i :: 0 <= i < a.Length ==> a[i] == a[..][i];
  }

  // ---------------------------------------------------------------------------------------------
  // populate_from_dir

  const PATH_MAX: nat := 4096

  datatype Kind = Directory | Regular | CharDevice | BlockDevice | Fifo | Socket | Unknown

  /** What lstat and stat answer for a path; `kind` is None when stat fails. */
  datatype Status = Status(isLink: bool, kind: Option<Kind>)

  datatype Child = Dir(path: string, name: string) | File(path: string, name: string, isSymlink: bool)

  predicate Listed(name: string) { name != "." && name != ".." }

  function ChildPath(dir: string, name: string): string { dir + "/" + name }

  /** The node for one entry, or none for an over-long path or an unsupported type. */
  function NodeFor(dir: string, name: string, disk: string -> Status): (r: Option<Child>)
    ensures r.Some? ==> r.value.name == name && r.value.path == dir + "/" + name
  {
    var path := ChildPath(dir, name);
    if |path| >= PATH_MAX then None else
      var st := disk(path);
      match st.kind
      case None => Some(File(path, name, st.isLink))
      case Some(Directory) => Some(Dir(path, name))
      case Some(Socket) => None
      case Some(Unknown) => None
      case Some(_) => Some(File(path, name, st.isLink))
  }

  function Nodes(dir: string, names: seq<string>, disk: string -> Status): (cs: seq<Child>)
    ensures |cs| <= |names|
  {
    if names == [] then [] else
      (match NodeFor(dir, names[0], disk) case Some(c) => [c] case None => []) + Nodes(dir, names[1..], disk)
  }

  function Kept(entries: seq<string>): (r: seq<string>)
  {
    if entries == [] then []
    else (if Listed(entries[0]) then [entries[0]] else []) + Kept(entries[1..])
  }

  function Listing(dir: string, entries: seq<string>, disk: string -> Status): seq<Child> {
    Nodes(dir, Sorting(Kept(entries)), disk)
  }

  lemma {:induction false} KeptSnoc(s: seq<string>, x: string)
    ensures Kept(s + [x]) == Kept(s) + if Listed(x) then [x] else []
  {
    hide Listed;
    if s == [] {
      assert s + [x] == [x] && [x][1..] == [];
    } else {
      assert (s + [x])[1..] == s[1..] + [x] && (s + [x])[0] == s[0];
      KeptSnoc(s[1..], x);
      var first, last := if Listed(s[0]) then [s[0]] else [], if Listed(x) then [x] else [];
      assert first + (Kept(s[1..]) + last) == first + Kept(s[1..]) + last;
    }
  }

  lemma {:induction false} NodesSnoc(dir: string, s: seq<string>, x: string, disk: string -> Status)
    ensures Nodes(dir, s + [x], disk)
         == Nodes(dir, s, disk) + match NodeFor(dir, x, disk) case Some(c) => [c] case None => []
  {
    hide NodeFor;
    if s == [] {
      assert s + [x] == [x];
    } else {
      assert (s + [x])[1..] == s[1..] + [x];
      NodesSnoc(dir, s[1..], x, disk);
    }
  }

  /** Collects every entry name in readdir order, sorts, then spawns the children; None when opendir fails. */
  method PopulateFromDir(dir: string, found: Option<seq<string>>, disk: string -> Status)
    returns (children: Option<seq<Child>>)
    ensures found == None ==> children == None
    ensures found.Some? ==> children == Some(Listing(dir, found.value, disk))
    ensures children.Some? ==> forall i, j :: 0 <= i < j < |children.value| ==>
      var m, n := children.value[i].name, children.value[j].name;
      m <= n || exists k :: 0 <= k < |m| && k < |n| && m[..k] == n[..k] && m[k] < n[k]
    ensures children.Some? ==> forall c :: c in children.value <==>
      && c.name in found.value && c.name != "." && c.name != ".."
      && c.path == dir + "/" + c.name && |c.path| < 4096
      && match disk(c.path).kind
         case Some(Directory) => c.Dir?
         case Some(Socket) => false
         case Some(Unknown) => false
         case _ => c.File? && c.isSymlink == disk(c.path).isLink
  {
    if found.Some? { ListingShows(dir, found.value, disk); }
    if found == None {
      return None;
    }
    var entries := found.value;
    var names: seq<string> := [];
    for i := 0 to |entries|
      invariant names == Kept(entries[..i])
    {
      KeptSnoc(entries[..i], entries[i]);
      assert entries[..i + 1] == entries[..i] + [entries[i]];
      if entries[i] == "." || entries[i] == ".." { continue; }
      names := names + [entries[i]];
    }
    assert entries[..|entries|] == entries;
    var a := new string[|names|](k requires 0 <= k < |names| => names[k]);
    assert a[..] == names;
    SortNames(a);
    InsertingSorts(names);
    OneArrangement(a[..], Sorting(names));
    var kids := Spawn(dir, a, disk);
    children := Some(kids);
  }

  /** The second loop: path building, lstat, stat and the choice of node. */
  method Spawn(dir: string, names: array<string>, disk: string -> Status) returns (kids: seq<Child>)
    ensures kids == Nodes(dir, names[..], disk)
  {
    kids := [];
    for i := 0 to names.Length
      invariant kids == Nodes(dir, names[..i], disk)
    {
      NodesSnoc(dir, names[..i], names[i], disk);
      assert names[..i + 1] == names[..i] + [names[i]];
      var path := dir + "/" + names[i];
      if |path| >= PATH_MAX { continue; }
      var isLink := disk(path).isLink;
      if disk(path).kind == None {
        kids := kids + [File(path, names[i], isLink)];
        continue;
      }
      var kind := disk(path).kind.value;
      if kind == Directory {
        kids := kids + [Dir(path, names[i])];
      } else if kind == Regular || kind == CharDevice || kind == BlockDevice || kind == Fifo {
        kids := kids + [File(path, names[i], isLink)];
      }
    }
    assert names[..names.Length] == names[..];
  }

  lemma {:induction false} KeptCount(entries: seq<string>, x: string)
    ensures multiset(Kept(entries))[x] == if Listed(x) then multiset(entries)[x] else 0
  {
    if entries != [] {
      KeptCount(entries[1..], x);
      assert entries == [entries[0]] + entries[1..];
    }
  }

  /** The order in which readdir returns the entries does not matter. */
  lemma OrderIrrelevant(dir: string, one: seq<string>, other: seq<string>, disk: string -> Status)
    requires multiset(one) == multiset(other)
    ensures Listing(dir, one, disk) == Listing(dir, other, disk)
  {
    forall x ensures multiset(Kept(one))[x] == multiset(Kept(other))[x] {
      KeptCount(one, x);
      KeptCount(other, x);
    }
    assert multiset(Kept(one)) == multiset(Kept(other));
    InsertingSorts(Kept(one));
    InsertingSorts(Kept(other));
    OneArrangement(Sorting(Kept(one)), Sorting(Kept(other)));
  }

  ghost predicate InOrder(cs: seq<Child>) {
    forall i, j :: 0 <= i < j < |cs| ==> AtMost(cs[i].name, cs[j].name)
  }

  lemma {:induction false} NodesAre(dir: string, names: seq<string>, disk: string -> Status)
    requires Sorted(names)
    ensures var cs := Nodes(dir, names, disk);
      && (forall c :: c in cs <==> exists n :: n in names && NodeFor(dir, n, disk) == Some(c))
      && InOrder(cs)
  {
    hide NodeFor;
    if names != [] {
      NodesAre(dir, names[1..], disk);
      var rest := Nodes(dir, names[1..], disk);
      forall c | c in rest ensures AtMost(names[0], c.name) {
        var n :| n in names[1..] && NodeFor(dir, n, disk) == Some(c);
      }
    }
  }

  /** The children are, sorted by name, exactly the nodes of the listed entries. */
  lemma ListingIs(dir: string, entries: seq<string>, disk: string -> Status)
    ensures var cs := Listing(dir, entries, disk);
      && (forall c :: c in cs <==> exists n :: n in entries && Listed(n) && NodeFor(dir, n, disk) == Some(c))
      && InOrder(cs)
    ensures var cs := Listing(dir, entries, disk);
      forall i, j :: 0 <= i < j < |cs| ==>
        var m, n := cs[i].name, cs[j].name;
        m <= n || exists k :: 0 <= k < |m| && k < |n| && m[..k] == n[..k] && m[k] < n[k]
  {
    NodesOfEntries(dir, entries, disk);
    hide NodeFor, Listing, AtMost;
    var cs := Listing(dir, entries, disk);
    forall i, j | 0 <= i < j < |cs|
      ensures var m, n := cs[i].name, cs[j].name;
        m <= n || exists k :: 0 <= k < |m| && k < |n| && m[..k] == n[..k] && m[k] < n[k]
    {
      StrcmpOrder(cs[i].name, cs[j].name);
    }
  }

  lemma NodesOfEntries(dir: string, entries: seq<string>, disk: string -> Status)
    ensures var cs := Listing(dir, entries, disk);
      && (forall c :: c in cs <==> exists n :: n in entries && Listed(n) && NodeFor(dir, n, disk) == Some(c))
      && InOrder(cs)
  {
    hide NodeFor, Nodes, Sorting, Kept, AtMost, InOrder;
    var names := Sorting(Kept(entries));
    InsertingSorts(Kept(entries));
    NodesAre(dir, names, disk);
    forall n ensures n in names <==> n in entries && Listed(n) {
      KeptCount(entries, n);
      assert n in names <==> n in multiset(names);
      assert n in entries <==> n in multiset(entries);
    }
    var cs := Listing(dir, entries, disk);
    forall c ensures c in cs <==> exists n :: n in entries && Listed(n) && NodeFor(dir, n, disk) == Some(c) {
      if c in cs {
        var n :| n in names && NodeFor(dir, n, disk) == Some(c);
        assert n in entries && Listed(n);
      }
      if n :| n in entries && Listed(n) && NodeFor(dir, n, disk) == Some(c) {
        assert n in names;
      }
    }
  }

  /** The same written out: the order is that of strcmp, and an entry other than . and .. is there exactly
      if its path fits 4095 characters and it is neither a socket nor of an unknown type. */
  lemma ListingShows(dir: string, entries: seq<string>, disk: string -> Status)
    ensures forall i, j :: 0 <= i < j < |Listing(dir, entries, disk)| ==>
      var m, n := Listing(dir, entries, disk)[i].name, Listing(dir, entries, disk)[j].name;
      m <= n || exists k :: 0 <= k < |m| && k < |n| && m[..k] == n[..k] && m[k] < n[k]
    ensures forall c :: c in Listing(dir, entries, disk) <==>
      && c.name in entries && c.name != "." && c.name != ".."
      && c.path == dir + "/" + c.name && |c.path| < 4096
      && match disk(c.path).kind
         case Some(Directory) => c.Dir?
         case Some(Socket) => false
         case Some(Unknown) => false
         case _ => c.File? && c.isSymlink == disk(c.path).isLink
  {
    hide Listing, AtMost;
    ListingIs(dir, entries, disk);
    var cs := Listing(dir, entries, disk);
    forall c ensures c in cs <==> c.name in entries && Listed(c.name) && NodeFor(dir, c.name, disk) == Some(c) {
      if c in cs {
        var n :| n in entries && Listed(n) && NodeFor(dir, n, disk) == Some(c);
      }
    }
  }

  lemma {:induction false} NodesDistinct(dir: string, names: seq<string>, disk: string -> Status)
    requires forall x :: multiset(names)[x] <= 1
    ensures var cs := Nodes(dir, names, disk);
      && (forall c :: c in cs ==> c.name in names)
      && (forall i, j :: 0 <= i < j < |cs| ==> cs[i].name != cs[j].name)
  {
    hide NodeFor;
    if names != [] {
      var n, rest := names[0], names[1..];
      assert names == [n] + rest;
      forall x ensures multiset(rest)[x] <= 1 { assert multiset(names)[x] <= 1; }
      NodesDistinct(dir, rest, disk);
      assert n !in rest by { assert multiset(names)[n] <= 1; }
      var later := Nodes(dir, rest, disk);
      forall j | 0 <= j < |later| ensures later[j].name != n { assert later[j] in later; }
    }
  }

  lemma NamesDistinct(dir: string, entries: seq<string>, disk: string -> Status)
    requires forall x :: multiset(entries)[x] <= 1
    ensures var cs := Listing(dir, entries, disk);
      forall i, j :: 0 <= i < j < |cs| ==> cs[i].name != cs[j].name
  {
    hide Sorting, Kept;
    var names := Sorting(Kept(entries));
    forall x ensures multiset(names)[x] <= 1 {
      KeptCount(entries, x);
      assert multiset(entries)[x] <= 1;
    }
    NodesDistinct(dir, names, disk);
    assert Listing(dir, entries, disk) == Nodes(dir, names, disk);
  }

  /** Directory entries have distinct names, and so have the children: the order is strict. */
  lemma ListingDistinct(dir: string, entries: seq<string>, disk: string -> Status)
    requires forall x :: multiset(entries)[x] <= 1
    ensures var cs := Listing(dir, entries, disk);
      forall i, j :: 0 <= i < j < |cs| ==>
        var m, n := cs[i].name, cs[j].name;
        m != n && (m <= n || exists k :: 0 <= k < |m| && k < |n| && m[..k] == n[..k] && m[k] < n[k])
  {
    hide Listing;
    NamesDistinct(dir, entries, disk);
    ListingShows(dir, entries, disk);
  }

  // ---------------------------------------------------------------------------------------------
  // file_invoke: the read loop

  /** What one read() meets: bytes waiting (none at end of file), a signal, or an error. */
  datatype Read = Data(bytes: string) | Interrupted | Failed(errno: int)

  datatype Text = Text(content: string) | ReadError(errno: int)

  const LIMIT: nat := 65535

  /** The bytes before end of file or failure, and the failure if that came first. */
  function Content(answers: seq<Read>): (r: (string, Option<int>)) {
    if answers == [] then ("", None) else
      match answers[0]
      case Data(b) => if b == "" then ("", None) else
        var rest := Content(answers[1..]);
        (b + rest.0, rest.1)
      case Interrupted => Content(answers[1..])
      case Failed(e) => ("", Some(e))
  }

  function Chomp(s: string): string {
    if s != "" && s[|s| - 1] == '\n' then s[..|s| - 1] else s
  }

  /** What the caller sees: the first 65535 bytes less one newline, or an error met before so many. */
  function Outcome(content: string, failure: Option<int>): Text {
    if |content| >= LIMIT then Text(Chomp(content[..LIMIT]))
    else if failure.Some? then ReadError(failure.value)
    else Text(Chomp(content))
  }

  /** read(fd, buf + total, n) copying out what it has. */
  method CopyOut(buf: array<char>, total: nat, bytes: string)
    requires total + |bytes| <= buf.Length
    modifies buf
    ensures buf[..total + |bytes|] == old(buf[..total]) + bytes
  {
    forall k | 0 <= k < |bytes| { buf[total + k] := bytes[k]; }
  }

  /** NUL-terminates and trims one trailing newline. */
  method Terminate(buf: array<char>, length: nat) returns (text: Text)
    requires length < buf.Length
    modifies buf
    ensures text == Text(Chomp(old(buf[..length])))
  {
    var total := length;
    buf[total] := '\0';
    if total > 0 && buf[total - 1] == '\n' {
      total := total - 1;
      buf[total] := '\0';
    }
    text := Text(buf[..total]);
  }

  lemma Answered(answers: seq<Read>, i: nat)
    requires i < |answers|
    ensures var rest := Content(answers[i + 1..]);
      Content(answers[i..]) == match answers[i]
        case Data(b) => if b == "" then ("", None) else (b + rest.0, rest.1)
        case Interrupted => rest
        case Failed(e) => ("", Some(e))
  {
    assert answers[i..][1..] == answers[i + 1..];
  }

  /** The answer of file_invoke: the bytes of the reads before the first end of file or failure. */
  method ReadFile(answers: seq<Read>) returns (text: Text)
    ensures text == Outcome(Content(answers).0, Content(answers).1)
    ensures forall k :: 0 <= k <= |answers| && (forall r :: r in answers[..k] ==> !r.Failed? && r != Data("")) ==>
      var read := Bytes(answers[..k]);
      var kept := if |read| > 65535 then read[..65535] else read;
      && (|read| >= 65535 || k == |answers| || answers[k] == Data("") ==>
            text == Text(if kept != "" && kept[|kept| - 1] == '\n' then kept[..|kept| - 1] else kept))
      && (|read| < 65535 && k < |answers| && answers[k].Failed? ==> text == ReadError(answers[k].errno))
  {
    text := ReadLoop(answers);
    ReadUpTo(answers);
  }

  method ReadLoop(answers: seq<Read>) returns (text: Text)
    ensures text == Outcome(Content(answers).0, Content(answers).1)
  {
    hide Content, Outcome, Chomp;
    var buf := new char[LIMIT + 1](_ => '\0');
    var total, i := 0, 0;
    ghost var all := Content(answers);
    assert answers[0..] == answers;
    var open := true;
    while open && total < LIMIT
      invariant 0 <= i <= |answers| && 0 <= total <= LIMIT && buf.Length == LIMIT + 1
      invariant total < LIMIT ==>
        if open then all.0 == buf[..total] + Content(answers[i..]).0 && all.1 == Content(answers[i..]).1
        else all.0 == buf[..total] && all.1 == None
      invariant buf[..total] <= all.0
      decreases open, |answers| - i
    {
      if i == |answers| {
        AtEnd(answers);
        assert buf[..total] + "" == buf[..total];
        open := false;
        continue;
      }
      var next := answers[i];
      Answered(answers, i);
      i := i + 1;
      if next.Failed? {
        Broken(all.0, next.errno);
        return ReadError(next.errno);
      }
      if next.Interrupted? { continue; }
      if next.bytes == "" {
        assert buf[..total] + "" == buf[..total];
        open := false;
        continue;
      }
      var n := if |next.bytes| < LIMIT - total then |next.bytes| else LIMIT - total;
      CopyOut(buf, total, next.bytes[..n]);
      total := total + n;
    }
    Seen(all.0, all.1, buf[..total]);
    text := Terminate(buf, total);
  }

  lemma Seen(content: string, failure: Option<int>, got: string)
    requires got <= content && |got| <= LIMIT && (|got| == LIMIT || (content == got && failure == None))
    ensures Outcome(content, failure) == Text(Chomp(got))
  {
  }

  lemma Broken(content: string, errno: int)
    requires |content| < LIMIT
    ensures Outcome(content, Some(errno)) == ReadError(errno)
  {
  }

  lemma AtEnd(answers: seq<Read>)
    ensures Content(answers[|answers|..]) == ("", None)
  {
  }

  /** The bytes of a run of successful or interrupted reads. */
  function Bytes(answers: seq<Read>): string {
    if answers == [] then "" else (if answers[0].Data? then answers[0].bytes else "") + Bytes(answers[1..])
  }

  /** What the reads before the first end of file or failure amount to. */
  lemma ReadUpTo(answers: seq<Read>)
    ensures forall k :: 0 <= k <= |answers| && (forall r :: r in answers[..k] ==> !r.Failed? && r != Data("")) ==>
      var read, text := Bytes(answers[..k]), Outcome(Content(answers).0, Content(answers).1);
      var kept := if |read| > 65535 then read[..65535] else read;
      && (|read| >= 65535 || k == |answers| || answers[k] == Data("") ==>
            text == Text(if kept != "" && kept[|kept| - 1] == '\n' then kept[..|kept| - 1] else kept))
      && (|read| < 65535 && k < |answers| && answers[k].Failed? ==> text == ReadError(answers[k].errno))
  {
    hide Bytes, Content;
    forall k | 0 <= k <= |answers| && (forall r :: r in answers[..k] ==> !r.Failed? && r != Data(""))
      ensures Content(answers) == (Bytes(answers[..k]) + Content(answers[k..]).0, Content(answers[k..]).1)
      ensures Content(answers[k..]) ==
              if k < |answers| && answers[k].Failed? then ("", Some(answers[k].errno))
              else if k == |answers| || answers[k] == Data("") then ("", None) else Content(answers[k..])
    {
      assert answers == answers[..k] + answers[k..];
      CutIrrelevant(answers[..k], answers[k..]);
      if k < |answers| { Answered(answers, k); } else { AtEnd(answers); }
    }
  }

  /** How the bytes are cut into reads, and where signals interrupt, does not matter. */
  lemma {:induction false} CutIrrelevant(answers: seq<Read>, tail: seq<Read>)
    requires forall r :: r in answers ==> !r.Failed? && r != Data("")
    ensures Content(answers + tail) == (Bytes(answers) + Content(tail).0, Content(tail).1)
  {
    if answers == [] {
      assert answers + tail == tail;
      assert "" + Content(tail).0 == Content(tail).0;
    } else {
      assert (answers + tail)[1..] == answers[1..] + tail;
      CutIrrelevant(answers[1..], tail);
      var r, rest := answers[0], Bytes(answers[1..]);
      assert (answers + tail)[0] == r && r in answers;
      if r.Data? {
        assert r == Data(r.bytes) && r.bytes != "";
        assert r.bytes + (rest + Content(tail).0) == Bytes(answers) + Content(tail).0;
      } else {
        assert "" + rest == rest;
      }
    }
  }
}
