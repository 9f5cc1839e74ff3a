/** Finding and opening a milo inside an ark (core/pikaxe_bevy/src/resources.rs):
    `get_path_with_gen_folder`, `get_entry_from_path` and the failure
    paths of `MiloState::open_milo`. The ark reader, the milo decoder and
    the platform guess are foreign; they are parameters here. */
module ArkPath {
  import opened Common

  // ---------------------------------------------------------------------
  // Path surgery

  /** The part after the last '/', or the whole path without one. */
  function FileName(p: string): string {
    match LastIndexOf(p, '/')
    case None => p
    case Some(i) => p[i + 1..]
  }

  /** The part before the last '/', or "" without one. */
  function DirName(p: string): string {
    match LastIndexOf(p, '/')
    case None => ""
    case Some(i) => p[..i]
  }

  /** `get_path_with_gen_folder`: split at the last '/' (kept in the
      second half) and put "/gen" between the halves; without a '/',
      prefix "gen/". */
  function GenPath(p: string): (r: string)
    ensures |r| == |p| + 4
  {
    match LastIndexOf(p, '/')
    case None => "gen/" + p
    case Some(i) => p[..i] + "/gen" + p[i..]
  }

  /** Two positions that both hold the last '/' are the same. */
  lemma LastSlashUnique(s: string, i: nat, j: nat)
    requires i < |s| && j < |s| && s[i] == '/' && s[j] == '/'
    requires forall k :: i < k < |s| ==> s[k] != '/'
    requires forall k :: j < k < |s| ==> s[k] != '/'
    ensures i == j
  {
  }

  /** The gen path has the same file name, and its directory is the old
      one with a "gen" component appended ("gen" alone for a bare name).
      Together these fix the whole result: "gen" goes in front of the last
      component and nowhere else. */
  lemma GenPathComponents(p: string)
    ensures FileName(GenPath(p)) == FileName(p)
    ensures DirName(GenPath(p)) == if '/' in p then DirName(p) + "/gen" else "gen"
  {
    var r := GenPath(p);
    match LastIndexOf(p, '/')
    case None =>
      assert r[3] == '/';
      assert r[4..] == p;
      var k := LastIndexOf(r, '/');
      assert k.Some?;
      LastSlashUnique(r, k.value, 3);
    case Some(i) =>
      var s1, s2 := p[..i], p[i..];
      assert r == s1 + "/gen" + s2;
      assert r[i + 4] == '/';
      assert r[i + 5..] == p[i + 1..];
      var k := LastIndexOf(r, '/');
      assert k.Some?;
      LastSlashUnique(r, k.value, i + 4);
      assert r[..i + 4] == p[..i] + "/gen";
  }

  // ---------------------------------------------------------------------
  // Entry lookup

  /** An ark entry: its id and its path inside the ark. */
  datatype ArkEntry = ArkEntry(id: nat, path: string)

  /** An entry matches a requested path when its path starts with the
      path or with the path's gen variant. */
  predicate Matches(e: ArkEntry, path: string) {
    StartsWith(e.path, path) || StartsWith(e.path, GenPath(path))
  }

  /** `get_entry_from_path`: the first matching entry in ark order. */
  function GetEntry(entries: seq<ArkEntry>, path: string): (r: Option<ArkEntry>)
    ensures r.None? <==> forall i :: 0 <= i < |entries| ==> !Matches(entries[i], path)
    ensures r.Some? ==> exists i :: (0 <= i < |entries| && entries[i] == r.value
      && Matches(entries[i], path) && forall j :: 0 <= j < i ==> !Matches(entries[j], path))
  {
    if entries == [] then None
    else if Matches(entries[0], path) then Some(entries[0])
    else
      var r := GetEntry(entries[1..], path);
      assert forall i :: 1 <= i < |entries| ==> entries[1..][i - 1] == entries[i];
      if r.Some? then
        ghost var i :| 0 <= i < |entries[1..]| && entries[1..][i] == r.value
          && Matches(entries[1..][i], path) && forall j :: 0 <= j < i ==> !Matches(entries[1..][j], path);
        assert entries[i + 1] == r.value;
        r
      else r
  }

  /** Matching is by prefix: the first entry lying under the requested
      path (or under its gen variant) is found even though its path is
      longer, and everything before it is passed over. */
  lemma PrefixFound(entries: seq<ArkEntry>, path: string, rest: string, gen: bool, i: nat)
    requires i < |entries|
    requires entries[i].path == (if gen then GenPath(path) else path) + rest
    requires forall j :: 0 <= j < i ==> !Matches(entries[j], path)
    ensures GetEntry(entries, path) == Some(entries[i])
  {
    assert entries[i].path[..|if gen then GenPath(path) else path|] == if gen then GenPath(path) else path;
    assert Matches(entries[i], path);
    var r := GetEntry(entries, path);
    var k :| 0 <= k < |entries| && entries[k] == r.value
      && Matches(entries[k], path) && forall j :: 0 <= j < k ==> !Matches(entries[j], path);
    assert k == i;
  }

  // ---------------------------------------------------------------------
  // Opening a milo

  /** `open_milo`: no ark, no matching entry, an unreadable stream, an
      undecodable archive or a failed unpack each give `None`; otherwise
      the platform guessed from the archive and the ENTRY's path, with
      the unpacked directory. */
  function OpenMilo<B, A, S, D>(ark: Option<seq<ArkEntry>>, path: string,
                                getStream: nat -> Option<B>,
                                fromStream: B -> Option<A>,
                                guess: (A, string) -> S,
                                unpackDirectory: (A, S) -> Option<D>,
                                unpackEntries: (D, S) -> Option<D>): (r: Option<(S, D)>)
    ensures ark.None? ==> r.None?
    ensures ark.Some? && GetEntry(ark.value, path).None? ==> r.None?
    ensures r.Some? ==> (ark.Some? && GetEntry(ark.value, path).Some?
      && var e := GetEntry(ark.value, path).value;
         getStream(e.id).Some? && fromStream(getStream(e.id).value).Some?
         && r.value.0 == guess(fromStream(getStream(e.id).value).value, e.path))
  {
    if ark.None? then None
    else
      var entry := GetEntry(ark.value, path);
      if entry.None? then None
      else
        var e := entry.value;
        match getStream(e.id)
        case None => None
        case Some(data) =>
          match fromStream(data)
          case None => None
          case Some(milo) =>
            var info := guess(milo, e.path);
            match unpackDirectory(milo, info)
            case None => None
            case Some(dir) =>
              match unpackEntries(dir, info)
              case None => None
              case Some(dir2) => Some((info, dir2))
  }

  /** Every stage after the lookup is needed: when the chosen entry's
      stream, archive, directory or entries fail, there is no result. */
  lemma OpenMiloStagesNeeded<B, A, S, D>(entries: seq<ArkEntry>, path: string,
                                         getStream: nat -> Option<B>,
                                         fromStream: B -> Option<A>,
                                         guess: (A, string) -> S,
                                         unpackDirectory: (A, S) -> Option<D>,
                                         unpackEntries: (D, S) -> Option<D>)
    requires GetEntry(entries, path).Some?
    ensures var e := GetEntry(entries, path).value;
      var r := OpenMilo(Some(entries), path, getStream, fromStream, guess, unpackDirectory, unpackEntries);
      (getStream(e.id).None? ==> r.None?)
      && (getStream(e.id).Some? && fromStream(getStream(e.id).value).None? ==> r.None?)
      && (getStream(e.id).Some? && fromStream(getStream(e.id).value).Some? ==>
            var a := fromStream(getStream(e.id).value).value;
            var info := guess(a, e.path);
            (unpackDirectory(a, info).None? ==> r.None?)
            && (unpackDirectory(a, info).Some? ==>
                  r == (match unpackEntries(unpackDirectory(a, info).value, info)
                        case None => None
                        case Some(d) => Some((info, d)))))
  {
  }
}
