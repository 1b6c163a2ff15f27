/**
  `get_random_file`, which both programs define the same way: list a folder, keep the entries
  whose extension, lower-cased, is in the given list, and join a randomly chosen one onto the
  folder. The directory listing and the random choice are parameters.
*/
module Assets {

  import opened Wrappers
  import opened PyStr
  import PyPath

  /** Default `extensions` of `get_random_file` in `viral_video_bot.py`. */
  const BotExtensions: seq<string> := [".mp4", ".mov", ".avi", ".mp3", ".wav", ".m4a"]
  /** Default `extensions` of `get_random_file` in the Shorts factory: no `.m4a`. */
  const FactoryExtensions: seq<string> := [".mp4", ".mov", ".avi", ".mp3", ".wav"]
  /** The lists the Shorts factory passes: source videos, reaction videos, music. */
  const SourceExtensions: seq<string> := [".mp4", ".mov", ".mkv", ".webm"]
  const ReactionExtensions: seq<string> := [".mp4", ".mov", ".avi"]
  const MusicExtensions: seq<string> := [".mp3", ".wav"]

  /** A directory entry is an asset when its extension, lower-cased, is one of `exts`. */
  predicate IsAsset(name: string, exts: seq<string>)
  {
    LowerAsciiString(PyPath.SplitExt(name).1) in exts
  }

  /** The comprehension over `os.listdir(folder)`: the assets, in listing order. */
  function Candidates(listing: seq<string>, exts: seq<string>): (r: seq<string>)
    ensures |r| <= |listing|
    ensures forall f :: f in r <==> f in listing && IsAsset(f, exts)
  {
    if listing == [] then []
    else if IsAsset(listing[0], exts) then [listing[0]] + Candidates(listing[1..], exts)
    else Candidates(listing[1..], exts)
  }

  /** `get_random_file`: `None` for a missing folder or a folder without assets, otherwise the
      folder joined with the asset that `random.choice` picked (`pick` selects it). */
  function GetRandomFile(folderExists: bool, folder: string, listing: seq<string>,
                         exts: seq<string>, pick: nat): (r: Option<string>)
  {
    if !folderExists then None
    else
      var files := Candidates(listing, exts);
      if files == [] then None else Some(PyPath.Join(folder, files[pick % |files|]))
  }

  /** The picker returns nothing exactly when there is nothing to pick, and otherwise a path
      inside `folder` naming a listed asset. */
  lemma GetRandomFileSpec(folderExists: bool, folder: string, listing: seq<string>,
                          exts: seq<string>, pick: nat) returns (name: string)
    ensures GetRandomFile(folderExists, folder, listing, exts, pick).None?
            <==> !folderExists || forall f | f in listing :: !IsAsset(f, exts)
    ensures GetRandomFile(folderExists, folder, listing, exts, pick).Some? ==>
              && name in listing && IsAsset(name, exts)
              && GetRandomFile(folderExists, folder, listing, exts, pick).value == PyPath.Join(folder, name)
  {
    var files := Candidates(listing, exts);
    if files == [] {
      name := "";
    } else {
      name := files[pick % |files|];
      assert name in files;
    }
  }

  /** Every asset of an existing folder is a possible pick (the assets are exactly the
      `Candidates`). */
  lemma EveryAssetPickable(folder: string, listing: seq<string>, exts: seq<string>, name: string)
    returns (pick: nat)
    requires name in Candidates(listing, exts)
    ensures GetRandomFile(true, folder, listing, exts, pick) == Some(PyPath.Join(folder, name))
  {
    var files := Candidates(listing, exts);
    pick := IndexOf(files, name);
    ModSmall(pick, |files|);
    PickedFile(folder, listing, exts, pick);
  }

  lemma ModSmall(k: nat, n: nat)
    requires k < n
    ensures k % n == k
  {
  }

  lemma PickedFile(folder: string, listing: seq<string>, exts: seq<string>, pick: nat)
    requires Candidates(listing, exts) != []
    ensures var files := Candidates(listing, exts);
            GetRandomFile(true, folder, listing, exts, pick) == Some(PyPath.Join(folder, files[pick % |files|]))
  {
  }

  /** Position of `x` in `s`. */
  function IndexOf(s: seq<string>, x: string): (k: nat)
    requires x in s
    ensures k < |s| && s[k] == x
  {
    if s[0] == x then 0 else 1 + IndexOf(s[1..], x)
  }

  /** The two default lists differ only in `.m4a`: an `.m4a` track is an asset for the
      template bot and not for the Shorts factory. */
  lemma DefaultsDifferInM4a(name: string)
    ensures IsAsset(name, FactoryExtensions) ==> IsAsset(name, BotExtensions)
    ensures IsAsset(name, BotExtensions) && !IsAsset(name, FactoryExtensions)
            <==> LowerAsciiString(PyPath.SplitExt(name).1) == ".m4a"
  {
    var e := LowerAsciiString(PyPath.SplitExt(name).1);
    assert BotExtensions == FactoryExtensions + [".m4a"];
    assert e in BotExtensions <==> e in FactoryExtensions || e == ".m4a";
    assert forall x | x in FactoryExtensions :: x[2] != '4';
  }
}
