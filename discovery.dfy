/** `find_ovpn_files` and `needs_credentials`: the configurations the menu
    offers, and whether a configuration asks for a username and password. */
module Discovery {
  import opened PyText
  import opened Layout
  import opened Seqs

  /** One menu entry: `{"name", "full_path", "dir"}`. */
  datatype ConfigEntry = ConfigEntry(name: string, fullPath: string, dir: string)

  /** The record built for a found file: its name, the joined path, and the
      last component of the directory it was listed in. */
  function EntryOf(f: Found): (e: ConfigEntry)
    ensures e.name == f.name && EndsWith(e.fullPath, f.name)
    ensures forall m :: 0 <= m < |e.dir| ==> e.dir[m] != '/'
  {
    JoinShape(f.root, f.name);
    BasenameShape(f.root);
    ConfigEntry(f.name, Join(f.root, f.name), Basename(f.root))
  }

  /** The records of the found files, in order. */
  function Entries(found: seq<Found>): seq<ConfigEntry>
  {
    Map(found, EntryOf)
  }

  /** The inner loop of `find_ovpn_files`: one directory's `.ovpn` files are
      appended to the list, in listing order. */
  method AppendListing(ovpnList: seq<ConfigEntry>, root: string, files: seq<string>) returns (extended: seq<ConfigEntry>)
    ensures extended == ovpnList + Entries(Matching(root, files, OvpnSuffix))
  {
    extended := ovpnList;
    var f := 0;
    while f < |files|
      invariant 0 <= f <= |files|
      invariant extended == ovpnList + Entries(Matching(root, files[..f], OvpnSuffix))
    {
      var file := files[f];
      ghost var sofar := Matching(root, files[..f], OvpnSuffix);
      MatchingPrefix(root, files, f, OvpnSuffix);
      if EndsWith(file, OvpnSuffix) {
        var entry := EntryOf(Found(root, file));
        MapSnoc(sofar, Found(root, file), EntryOf);
        assert Entries(sofar + [Found(root, file)]) == Entries(sofar) + [entry];
        AppendAssoc(ovpnList, Entries(sofar), [entry]);
        extended := extended + [entry];
      } else {
        assert Matching(root, files[..f + 1], OvpnSuffix) == sofar + [] == sofar;
      }
      f := f + 1;
    }
    assert files[..f] == files;
  }

  /** The outer loop of `find_ovpn_files` over the walk. */
  method FindOvpnFiles(walk: seq<WalkStep>) returns (ovpnList: seq<ConfigEntry>)
    ensures ovpnList == Entries(OvpnFiles(walk))
  {
    ovpnList := [];
    var w := 0;
    while w < |walk|
      invariant 0 <= w <= |walk|
      invariant ovpnList == Entries(OvpnFiles(walk[..w]))
    {
      var step := walk[w];
      ovpnList := AppendListing(ovpnList, step.root, step.files);
      EntriesPrefix(walk, w);
      w := w + 1;
    }
    WholeWalk(walk);
  }

  lemma WholeWalk(walk: seq<WalkStep>)
    ensures Entries(OvpnFiles(walk[..|walk|])) == Entries(OvpnFiles(walk))
  {
    assert walk[..|walk|] == walk;
  }

  /** One more directory of the walk appends its entries. */
  lemma EntriesPrefix(walk: seq<WalkStep>, w: nat)
    requires w < |walk|
    ensures Entries(OvpnFiles(walk[..w + 1]))
      == Entries(OvpnFiles(walk[..w])) + Entries(Matching(walk[w].root, walk[w].files, OvpnSuffix))
  {
    OvpnFilesPrefix(walk, w);
    MapAppend(OvpnFiles(walk[..w]), Matching(walk[w].root, walk[w].files, OvpnSuffix), EntryOf);
  }

  /** What discovery promises about every entry, and that it misses none: an
      entry is in the list exactly when its file is a `.ovpn` file listed in
      some walked directory, and it names that file by the joined path. */
  lemma DiscoveredIff(walk: seq<WalkStep>, e: ConfigEntry)
    ensures e in Entries(OvpnFiles(walk)) <==>
      exists w :: 0 <= w < |walk| && e.name in walk[w].files && EndsWith(e.name, OvpnSuffix)
        && e.fullPath == Join(walk[w].root, e.name) && e.dir == Basename(walk[w].root)
  {
    if e in Entries(OvpnFiles(walk)) {
      var w := DiscoveredSound(walk, e);
    }
    if exists w :: 0 <= w < |walk| && e.name in walk[w].files && EndsWith(e.name, OvpnSuffix)
        && e.fullPath == Join(walk[w].root, e.name) && e.dir == Basename(walk[w].root) {
      var w :| 0 <= w < |walk| && e.name in walk[w].files && EndsWith(e.name, OvpnSuffix)
        && e.fullPath == Join(walk[w].root, e.name) && e.dir == Basename(walk[w].root);
      DiscoveredComplete(walk, w, e.name);
    }
  }

  /** The directory an entry of the list was found in. */
  lemma DiscoveredSound(walk: seq<WalkStep>, e: ConfigEntry) returns (w: nat)
    requires e in Entries(OvpnFiles(walk))
    ensures w < |walk| && e.name in walk[w].files && EndsWith(e.name, OvpnSuffix)
    ensures e.fullPath == Join(walk[w].root, e.name) && e.dir == Basename(walk[w].root)
  {
    var found := OvpnFiles(walk);
    MapIn(found, EntryOf, e);
    var k :| 0 <= k < |found| && EntryOf(found[k]) == e;
    var f := found[k];
    OvpnFilesIff(walk, f);
    w :| 0 <= w < |walk| && walk[w].root == f.root && f.name in walk[w].files && EndsWith(f.name, OvpnSuffix);
  }

  lemma DiscoveredComplete(walk: seq<WalkStep>, w: nat, name: string)
    requires w < |walk| && name in walk[w].files && EndsWith(name, OvpnSuffix)
    ensures EntryOf(Found(walk[w].root, name)) in Entries(OvpnFiles(walk))
  {
    var found := OvpnFiles(walk);
    var f := Found(walk[w].root, name);
    OvpnFilesIff(walk, f);
    var k :| 0 <= k < |found| && found[k] == f;
    MapHas(found, EntryOf, k);
  }

  /** Every entry names a `.ovpn` file, its path ends with that name, and its
      directory label is a single path component. */
  lemma DiscoveredShape(walk: seq<WalkStep>, k: nat)
    requires k < |Entries(OvpnFiles(walk))|
    ensures var e := Entries(OvpnFiles(walk))[k];
      EndsWith(e.name, OvpnSuffix) && EndsWith(e.fullPath, e.name)
      && forall m :: 0 <= m < |e.dir| ==> e.dir[m] != '/'
  {
    var found := OvpnFiles(walk);
    MapAt(found, EntryOf, k);
    OvpnFilesIff(walk, found[k]);
    JoinShape(found[k].root, found[k].name);
    BasenameShape(found[k].root);
  }

  const AuthDirective: string := "auth-user-pass"

  /** `'auth-user-pass' in f.read()`: a configuration needs credentials
      exactly when the directive occurs at some offset of its text. */
  predicate NeedsCredentials(content: string)
    ensures NeedsCredentials(content) <==> exists i :: OccursAt(content, AuthDirective, i)
  {
    ContainsIff(content, AuthDirective);
    Contains(content, AuthDirective)
  }
}
