/** The directory data both the discovery and the permission audit read: the
    steps of `os.walk` over the configuration directory (each a directory path
    and the plain file names in it, in the order the walk yields them) and the
    names `os.listdir` gives for the credentials directory. Both pick files by
    suffix; `Matching` is that selection, defined once. */
module Layout {
  import opened PyText

  const OvpnSuffix: string := ".ovpn"
  const CredSuffix: string := ".cred"

  /** One `(root, _, files)` triple of `os.walk`. */
  datatype WalkStep = WalkStep(root: string, files: seq<string>)

  /** A selected file: the directory it was listed in and its name. */
  datatype Found = Found(root: string, name: string)

  /** The files of `files` whose name ends with `suffix`, in listing order. */
  function Matching(root: string, files: seq<string>, suffix: string): seq<Found>
  {
    if files == [] then []
    else
      var last := files[|files| - 1];
      Matching(root, files[..|files| - 1], suffix) + (if EndsWith(last, suffix) then [Found(root, last)] else [])
  }

  /** The `.ovpn` files of the whole walk, directory after directory. */
  function OvpnFiles(walk: seq<WalkStep>): seq<Found>
  {
    if walk == [] then []
    else
      var last := walk[|walk| - 1];
      OvpnFiles(walk[..|walk| - 1]) + Matching(last.root, last.files, OvpnSuffix)
  }

  /** One more directory of the walk adds its files at the end. */
  lemma OvpnFilesPrefix(walk: seq<WalkStep>, w: nat)
    requires w < |walk|
    ensures OvpnFiles(walk[..w + 1]) == OvpnFiles(walk[..w]) + Matching(walk[w].root, walk[w].files, OvpnSuffix)
  {
    assert walk[..w + 1][..w] == walk[..w];
  }

  /** One more listed name adds at most itself at the end. */
  lemma MatchingPrefix(root: string, files: seq<string>, f: nat, suffix: string)
    requires f < |files|
    ensures Matching(root, files[..f + 1], suffix)
      == Matching(root, files[..f], suffix) + (if EndsWith(files[f], suffix) then [Found(root, files[f])] else [])
  {
    assert files[..f + 1][..f] == files[..f];
  }

  /** Exactly the listed names with the suffix are selected, and nothing else. */
  lemma {:induction false} MatchingIff(root: string, files: seq<string>, suffix: string, f: Found)
    ensures f in Matching(root, files, suffix) <==> f.root == root && f.name in files && EndsWith(f.name, suffix)
  {
    if files != [] {
      var init := files[..|files| - 1];
      MatchingIff(root, init, suffix, f);
      assert files == init + [files[|files| - 1]];
    }
  }

  /** Exactly the `.ovpn` files of the walk are found, each with its own directory. */
  lemma {:induction false} OvpnFilesIff(walk: seq<WalkStep>, f: Found)
    ensures f in OvpnFiles(walk) <==>
      exists w :: 0 <= w < |walk| && walk[w].root == f.root && f.name in walk[w].files && EndsWith(f.name, OvpnSuffix)
  {
    if walk != [] {
      var n := |walk| - 1;
      OvpnFilesIff(walk[..n], f);
      MatchingIff(walk[n].root, walk[n].files, OvpnSuffix, f);
      if f in OvpnFiles(walk) {
        if f in OvpnFiles(walk[..n]) {
          var w :| 0 <= w < n && walk[..n][w].root == f.root && f.name in walk[..n][w].files && EndsWith(f.name, OvpnSuffix);
          assert walk[w] == walk[..n][w];
        } else {
          assert walk[n].root == f.root && f.name in walk[n].files && EndsWith(f.name, OvpnSuffix);
        }
      } else {
        forall w | 0 <= w < |walk| && walk[w].root == f.root && f.name in walk[w].files
          ensures !EndsWith(f.name, OvpnSuffix)
        {
          if w < n {
            assert walk[..n][w] == walk[w];
          }
        }
      }
    }
  }

  /** Every file has one entry per time it is listed: the number selected is
      the number of listed names with the suffix. */
  lemma {:induction false} MatchingCount(root: string, files: seq<string>, suffix: string)
    ensures |Matching(root, files, suffix)| == |set k | 0 <= k < |files| && EndsWith(files[k], suffix)|
  {
    var idx := set k | 0 <= k < |files| && EndsWith(files[k], suffix);
    if files != [] {
      var n := |files| - 1;
      MatchingCount(root, files[..n], suffix);
      var prev := set k | 0 <= k < n && EndsWith(files[..n][k], suffix);
      if EndsWith(files[n], suffix) {
        assert idx == prev + {n};
      } else {
        assert idx == prev;
      }
    } else {
      assert idx == {};
    }
  }
}
