/** The filesystem stash: one JSON file per tweet, named by the tweet's
    `id_str`, in one directory. The directory is modelled as a map from file
    name to the tweet stored in that file. */
module Stash {
  import opened Tweets

  /** Extension of every stash file. */
  const SUFFIX := ".json"

  /** Name of the file a tweet id is stored in: `tweet_id + '.json'`. */
  function FileName(id: string): string
  {
    id + SUFFIX
  }

  /** Index of the last '.' in `s`, or -1 if there is none. */
  function LastDot(s: string): (r: int)
    ensures -1 <= r < |s|
    ensures r >= 0 ==> s[r] == '.'
    ensures forall k :: r < k < |s| ==> s[k] != '.'
  {
    if s == [] then -1
    else if s[|s| - 1] == '.' then |s| - 1
    else LastDot(s[..|s| - 1])
  }

  /** A file name without its suffix, as a path's `stem`: the suffix starts
      at the last '.', unless that dot is the first or the last character. */
  function Stem(name: string): string
  {
    var i := LastDot(name);
    if 0 < i < |name| - 1 then name[..i] else name
  }

  /** The names the `'*.json'` pattern matches: those ending in ".json". */
  predicate IsJson(name: string)
  {
    |name| >= |SUFFIX| && name[|name| - |SUFFIX|..] == SUFFIX
  }

  /** The last dot of a stash file name is the one that starts ".json". */
  lemma LastDotOfFileName(id: string)
    ensures LastDot(FileName(id)) == |id|
  {
    var name := FileName(id);
    assert name[|id|] == '.';
    assert name[|id| + 1..] == "json";
  }

  /** The stem of a tweet's file name gives the id back exactly when the id
      is not empty; the file of the empty id, ".json", has stem ".json". */
  lemma StemOfFileName(id: string)
    ensures Stem(FileName(id)) == id <==> id != ""
  {
    LastDotOfFileName(id);
    if id != "" {
      assert FileName(id)[..|id|] == id;
    } else {
      assert Stem(FileName(id)) == ".json";
    }
  }

  /** A listed ".json" is never read from itself: its stem is ".json", so
      reading that stem opens ".json.json". */
  lemma SuffixReadsOtherFile()
    ensures Stem(SUFFIX) == SUFFIX && FileName(Stem(SUFFIX)) == ".json.json"
  {
    StemOfFileName("");
  }

  /** Every ".json" name other than ".json" itself is the file of its stem. */
  lemma FileNameOfStem(name: string)
    requires IsJson(name) && name != SUFFIX
    ensures IsJson(FileName(Stem(name)))
    ensures FileName(Stem(name)) == name
  {
    var id := name[..|name| - |SUFFIX|];
    assert name == FileName(id);
    StemOfFileName(id);
  }

  /** Different ids are stored in different files. */
  lemma FileNameInjective(a: string, b: string)
    requires FileName(a) == FileName(b)
    ensures a == b
  {
    assert a == FileName(a)[..|a|];
  }

  // ---------------------------------------------------------------------
  // The directory as a value
  // ---------------------------------------------------------------------

  /** The directory after `stash(tweet, overwrite)`: the tweet is written to
      its file if `overwrite` is set or the file does not exist yet. */
  function Stashed(dir: map<string, Tweet>, tweet: Tweet, overwrite: bool): (r: map<string, Tweet>)
    ensures FileName(tweet.idStr) in r
    ensures r[FileName(tweet.idStr)]
         == if overwrite || FileName(tweet.idStr) !in dir then tweet else dir[FileName(tweet.idStr)]
    ensures r.Keys == dir.Keys + {FileName(tweet.idStr)}
    ensures forall name :: name in dir && name != FileName(tweet.idStr) ==> r[name] == dir[name]
  {
    var name := FileName(tweet.idStr);
    if overwrite || name !in dir then dir[name := tweet] else dir
  }

  /** Stashing without overwrite twice is stashing once. */
  lemma StashIdempotent(dir: map<string, Tweet>, tweet: Tweet)
    ensures Stashed(Stashed(dir, tweet, false), tweet, false) == Stashed(dir, tweet, false)
  {
  }

  /** Stashing without overwrite a tweet whose file exists changes nothing. */
  lemma StashKeepsExisting(dir: map<string, Tweet>, tweet: Tweet)
    requires FileName(tweet.idStr) in dir
    ensures Stashed(dir, tweet, false) == dir
  {
  }

  /** Every file holds the tweet whose id names it. Writing through
      `stash` keeps a directory this way. */
  ghost predicate Consistent(dir: map<string, Tweet>)
  {
    forall name :: name in dir ==> name == FileName(dir[name].idStr)
  }

  lemma StashedConsistent(dir: map<string, Tweet>, tweet: Tweet, overwrite: bool)
    requires Consistent(dir)
    ensures Consistent(Stashed(dir, tweet, overwrite))
  {
  }

  /** In a consistent directory the file for `id` holds a tweet with that id. */
  lemma ConsistentRead(dir: map<string, Tweet>, id: string)
    requires Consistent(dir) && FileName(id) in dir
    ensures dir[FileName(id)].idStr == id
  {
    FileNameInjective(dir[FileName(id)].idStr, id);
  }

  /** The names `base_dir.glob('*.json')` enumerates. */
  function JsonNames(dir: map<string, Tweet>): set<string>
  {
    set name | name in dir.Keys && IsJson(name)
  }

  /** Stashing a tweet adds exactly its own file to what the glob lists. */
  lemma StashListsOneName(dir: map<string, Tweet>, tweet: Tweet, overwrite: bool)
    ensures JsonNames(Stashed(dir, tweet, overwrite)) == JsonNames(dir) + {FileName(tweet.idStr)}
  {
    var name := FileName(tweet.idStr);
    assert name[|name| - |SUFFIX|..] == SUFFIX;
    assert IsJson(name);
  }

  /** In a consistent directory of tweets with non-empty ids, the stems of
      the ".json" files are exactly the ids of the tweets stored. */
  lemma StemsAreStashedIds(dir: map<string, Tweet>)
    requires Consistent(dir)
    requires forall name :: name in dir ==> dir[name].idStr != ""
    ensures (set name | name in JsonNames(dir) :: Stem(name))
         == (set name | name in dir :: dir[name].idStr)
  {
    forall name | name in dir
      ensures IsJson(name) && Stem(name) == dir[name].idStr
    {
      StemOfFileName(dir[name].idStr);
      assert FileName(dir[name].idStr)[|name| - |SUFFIX|..] == SUFFIX;
    }
  }

  /** The directory after `stash_many(tweets)`: one `stash` per tweet, in
      order, without overwrite. */
  function StashedAll(dir: map<string, Tweet>, tweets: seq<Tweet>): map<string, Tweet>
    decreases |tweets|
  {
    if tweets == [] then dir else StashedAll(Stashed(dir, tweets[0], false), tweets[1..])
  }

  /** `stash_many` keeps every file holding the tweet whose id names it. */
  lemma {:induction false} StashedAllConsistent(dir: map<string, Tweet>, tweets: seq<Tweet>)
    requires Consistent(dir)
    ensures Consistent(StashedAll(dir, tweets))
    decreases |tweets|
  {
    if tweets != [] {
      StashedConsistent(dir, tweets[0], false);
      StashedAllConsistent(Stashed(dir, tweets[0], false), tweets[1..]);
    }
  }

  /** `stash_many` keeps every file that existed, and adds exactly the
      files of the tweets' ids. */
  lemma {:induction false} StashedAllKeeps(dir: map<string, Tweet>, tweets: seq<Tweet>)
    ensures StashedAll(dir, tweets).Keys
         == dir.Keys + (set i | 0 <= i < |tweets| :: FileName(tweets[i].idStr))
    ensures forall name :: name in dir ==> StashedAll(dir, tweets)[name] == dir[name]
    decreases |tweets|
  {
    if tweets != [] {
      StashedAllKeeps(Stashed(dir, tweets[0], false), tweets[1..]);
      var ids := set i | 0 <= i < |tweets| :: FileName(tweets[i].idStr);
      var restIds := set i | 0 <= i < |tweets[1..]| :: FileName(tweets[1..][i].idStr);
      assert ids == {FileName(tweets[0].idStr)} + restIds by {
        forall name | name in ids ensures name in {FileName(tweets[0].idStr)} + restIds {
          var i :| 0 <= i < |tweets| && name == FileName(tweets[i].idStr);
          if i > 0 {
            assert tweets[1..][i - 1] == tweets[i];
          }
        }
        forall name | name in restIds ensures name in ids {
          var i :| 0 <= i < |tweets[1..]| && name == FileName(tweets[1..][i].idStr);
          assert tweets[1..][i] == tweets[i + 1];
        }
      }
    }
  }

  /** For duplicate ids the first occurrence wins: a tweet whose file did not
      exist and whose id no earlier tweet has is the one stored. */
  lemma {:induction false} StashedAllFirstWins(dir: map<string, Tweet>, tweets: seq<Tweet>, i: nat)
    requires i < |tweets| && FileName(tweets[i].idStr) !in dir
    requires forall j :: 0 <= j < i ==> tweets[j].idStr != tweets[i].idStr
    ensures FileName(tweets[i].idStr) in StashedAll(dir, tweets)
    ensures StashedAll(dir, tweets)[FileName(tweets[i].idStr)] == tweets[i]
    decreases |tweets|
  {
    var next := Stashed(dir, tweets[0], false);
    if i == 0 {
      StashedAllKeeps(next, tweets[1..]);
    } else {
      if FileName(tweets[0].idStr) == FileName(tweets[i].idStr) {
        FileNameInjective(tweets[0].idStr, tweets[i].idStr);
      }
      assert tweets[1..][i - 1] == tweets[i];
      StashedAllFirstWins(next, tweets[1..], i - 1);
    }
  }

  /** `stash_many` over tweets all already stashed changes nothing, so
      running it twice is running it once. */
  lemma {:induction false} StashedAllIdempotent(dir: map<string, Tweet>, tweets: seq<Tweet>)
    ensures StashedAll(StashedAll(dir, tweets), tweets) == StashedAll(dir, tweets)
  {
    StashedAllKeeps(dir, tweets);
    StashedAllNoop(StashedAll(dir, tweets), tweets);
  }

  /** `stash_many` over tweets whose files all exist changes nothing. */
  lemma {:induction false} StashedAllNoop(dir: map<string, Tweet>, tweets: seq<Tweet>)
    requires forall i :: 0 <= i < |tweets| ==> FileName(tweets[i].idStr) in dir
    ensures StashedAll(dir, tweets) == dir
    decreases |tweets|
  {
    if tweets != [] {
      assert FileName(tweets[0].idStr) in dir;
      forall i | 0 <= i < |tweets[1..]| ensures FileName(tweets[1..][i].idStr) in dir {
        assert tweets[1..][i] == tweets[i + 1];
      }
      StashedAllNoop(dir, tweets[1..]);
    }
  }

  /** `names` lists every element of `s` once, in some order. */
  ghost predicate Enumerates(names: seq<string>, s: set<string>)
  {
    && (forall i, j :: 0 <= i < j < |names| ==> names[i] != names[j])
    && (forall name :: name in names <==> name in s)
  }

  /** The stems of a listing of the ".json" files of a consistent directory
      of tweets with non-empty ids are the ids of the stored tweets. */
  lemma ListedIdsAreStashed(dir: map<string, Tweet>, names: seq<string>, ids: seq<string>)
    requires Enumerates(names, JsonNames(dir))
    requires |ids| == |names| && forall k :: 0 <= k < |ids| ==> ids[k] == Stem(names[k])
    requires Consistent(dir) && forall name :: name in dir ==> dir[name].idStr != ""
    ensures (set id | id in ids) == (set name | name in dir :: dir[name].idStr)
  {
    StemsAreStashedIds(dir);
    forall name | name in JsonNames(dir) ensures Stem(name) in ids {
      var k :| 0 <= k < |names| && names[k] == name;
      assert ids[k] == Stem(name);
    }
  }

  /** A listing without repetitions has one entry per element. */
  lemma {:induction false} EnumerationSize(names: seq<string>, s: set<string>)
    requires Enumerates(names, s)
    ensures |names| == |s|
    decreases |names|
  {
    if names != [] {
      var last := names[|names| - 1];
      var init := names[..|names| - 1];
      assert Enumerates(init, s - {last}) by {
        forall name | name in init ensures name in s - {last} {
          var i :| 0 <= i < |init| && init[i] == name;
          assert names[i] == name && names[i] != names[|names| - 1];
        }
        forall name | name in s - {last} ensures name in init {
          var i :| 0 <= i < |names| && names[i] == name;
          assert init[i] == name;
        }
      }
      EnumerationSize(init, s - {last});
    }
  }

  /** Without a file named exactly ".json", every listed name is the file
      name of its own stem, so reading the stems of a listing reads every
      listed file, each under its own name. */
  lemma ReadListing(dir: map<string, Tweet>, names: seq<string>, tweets: seq<Tweet>)
    requires Enumerates(names, JsonNames(dir)) && SUFFIX !in dir
    requires |tweets| <= |names|
    requires forall k :: 0 <= k < |tweets| ==>
      FileName(Stem(names[k])) in dir && tweets[k] == dir[FileName(Stem(names[k]))]
    ensures forall k :: 0 <= k < |names| ==> FileName(Stem(names[k])) == names[k] && names[k] in dir
    ensures |names| == |JsonNames(dir)|
    ensures forall k :: 0 <= k < |tweets| ==> tweets[k] == dir[names[k]]
    ensures |tweets| == |names| ==> forall name :: name in JsonNames(dir) ==> dir[name] in tweets
  {
    forall k | 0 <= k < |names| ensures FileName(Stem(names[k])) == names[k] && names[k] in dir {
      assert names[k] in JsonNames(dir);
      FileNameOfStem(names[k]);
    }
    EnumerationSize(names, JsonNames(dir));
    if |tweets| == |names| {
      forall name | name in JsonNames(dir) ensures dir[name] in tweets {
        var k :| 0 <= k < |names| && names[k] == name;
        assert tweets[k] == dir[name];
      }
    }
  }

  // ---------------------------------------------------------------------
  // The stash object
  // ---------------------------------------------------------------------

  /** A file's location: the stash's base directory and the file name. */
  datatype FilePath = FilePath(dir: string, name: string)

  /** Reading a stash file yields its tweet, or fails because no file is at
      that path (the `FileNotFoundError` that `open` raises). */
  datatype ReadResult = Found(tweet: Tweet) | NotFound(path: FilePath)

  class FileStash {
    /** The directory the tweets are stored in. */
    const baseDir: string
    /** The files in that directory, by name, with the tweet each holds. */
    var files: map<string, Tweet>

    /** `FileStash(base_dir)` over a directory that already holds `existing`;
        the current directory when no base directory is given. */
    constructor (baseDir: Option<string>, existing: map<string, Tweet>)
      ensures this.baseDir == if baseDir.Some? then baseDir.value else "."
      ensures files == existing
    {
      this.baseDir := if baseDir.Some? then baseDir.value else ".";
      files := existing;
    }

    /** `tweet_path`: the file named by the id plus ".json" in the base
        directory. Its name matches the `'*.json'` pattern, and its stem is
        the id again unless the id is empty. */
    function TweetPath(id: string): (path: FilePath)
      ensures path.dir == baseDir && path.name == FileName(id)
      ensures IsJson(path.name)
      ensures id != "" ==> Stem(path.name) == id
    {
      StemOfFileName(id);
      assert FileName(id)[|id|..] == SUFFIX;
      FilePath(baseDir, FileName(id))
    }

    /** `is_stashed`: whether the tweet's file exists. */
    method IsStashed(id: string) returns (stashed: bool)
      ensures stashed <==> FileName(id) in files
    {
      stashed := TweetPath(id).name in files;
    }

    /** `stash`: write the tweet to its file, unless the file exists and
        `overwrite` is not set. A consistent directory stays consistent. */
    method Stash(tweet: Tweet, overwrite: bool)
      modifies this
      ensures files == Stashed(old(files), tweet, overwrite)
      ensures old(Consistent(files)) ==> Consistent(files)
    {
      var id := tweet.idStr;
      var stashed := IsStashed(id);
      if overwrite || !stashed {
        files := files[TweetPath(id).name := tweet];
      }
      if old(Consistent(files)) {
        StashedConsistent(old(files), tweet, overwrite);
      }
    }

    /** `unstash`: the tweet in the id's file, or the path that does not
        exist. In a consistent directory the tweet read has that id. */
    method Unstash(id: string) returns (r: ReadResult)
      ensures FileName(id) in files ==> r == Found(files[FileName(id)])
      ensures FileName(id) !in files ==> r == NotFound(TweetPath(id))
      ensures Consistent(files) && r.Found? ==> r.tweet.idStr == id
    {
      var path := TweetPath(id);
      if path.name in files {
        r := Found(files[path.name]);
        if Consistent(files) {
          ConsistentRead(files, id);
        }
      } else {
        r := NotFound(path);
      }
    }

    /** `all_ids`: the stem of every ".json" file, each file once, in the
        (unspecified) order the directory is listed in, given by `names`.
        When every file holds the tweet its name is made from and no id is
        empty, these are exactly the ids of the stored tweets. */
    method AllIds() returns (ids: seq<string>, ghost names: seq<string>)
      ensures Enumerates(names, JsonNames(files))
      ensures |ids| == |names|
      ensures forall k :: 0 <= k < |ids| ==> ids[k] == Stem(names[k])
      ensures Consistent(files) && (forall name :: name in files ==> files[name].idStr != "") ==>
        (set id | id in ids) == (set name | name in files :: files[name].idStr)
    {
      var unlisted := JsonNames(files);
      ids, names := [], [];
      while unlisted != {}
        invariant unlisted <= JsonNames(files)
        invariant forall name :: name in names <==> name in JsonNames(files) - unlisted
        invariant forall i, j :: 0 <= i < j < |names| ==> names[i] != names[j]
        invariant |ids| == |names|
        invariant forall k :: 0 <= k < |ids| ==> ids[k] == Stem(names[k])
        decreases unlisted
      {
        var name :| name in unlisted;
        ids, names := ids + [Stem(name)], names + [name];
        unlisted := unlisted - {name};
      }
      if Consistent(files) && (forall name :: name in files ==> files[name].idStr != "") {
        ListedIdsAreStashed(files, names, ids);
      }
    }

    /** `stash_many`: `stash` each tweet in order, without overwrite. */
    method StashMany(tweets: seq<Tweet>)
      modifies this
      ensures files == StashedAll(old(files), tweets)
      ensures old(Consistent(files)) ==> Consistent(files)
    {
      for k := 0 to |tweets|
        invariant StashedAll(files, tweets[k..]) == StashedAll(old(files), tweets)
      {
        assert tweets[k..][1..] == tweets[k + 1..];
        Stash(tweets[k], false);
      }
      if old(Consistent(files)) {
        StashedAllConsistent(old(files), tweets);
      }
    }

    /** `unstash_many`: the tweet of each id in order, up to the first id
        whose file does not exist, where reading stops with that path. */
    method UnstashMany(ids: seq<string>) returns (tweets: seq<Tweet>, failure: Option<FilePath>)
      ensures |tweets| <= |ids|
      ensures forall k :: 0 <= k < |tweets| ==>
        FileName(ids[k]) in files && tweets[k] == files[FileName(ids[k])]
      ensures failure.None? <==> |tweets| == |ids|
      ensures failure.Some? ==>
        FileName(ids[|tweets|]) !in files && failure.value == TweetPath(ids[|tweets|])
    {
      tweets := [];
      for k := 0 to |ids|
        invariant |tweets| == k
        invariant forall j :: 0 <= j < k ==> FileName(ids[j]) in files && tweets[j] == files[FileName(ids[j])]
      {
        var r := Unstash(ids[k]);
        match r {
          case NotFound(path) =>
            failure := Some(path);
            return;
          case Found(tweet) =>
            tweets := tweets + [tweet];
        }
      }
      failure := None;
    }

    /** `unstash_all`: `unstash_many` over `all_ids`. Each id read is the stem
        of a listed ".json" file; as long as no file is named ".json" (the
        file of the empty id, whose stem names another file), every listed
        file is read back, nothing fails, and each tweet is the one in the
        file listed at its position. */
    method UnstashAll() returns (tweets: seq<Tweet>, failure: Option<FilePath>, ghost names: seq<string>)
      ensures Enumerates(names, JsonNames(files))
      ensures |tweets| <= |names|
      ensures forall k :: 0 <= k < |tweets| ==>
        FileName(Stem(names[k])) in files && tweets[k] == files[FileName(Stem(names[k]))]
      ensures failure.None? <==> |tweets| == |names|
      ensures SUFFIX !in files ==>
        && failure.None?
        && |tweets| == |JsonNames(files)|
        && (forall name :: name in JsonNames(files) ==> files[name] in tweets)
      ensures SUFFIX !in files ==>
        forall k :: 0 <= k < |tweets| ==> names[k] in files && tweets[k] == files[names[k]]
      ensures failure.Some? ==>
        && |tweets| < |names| && names[|tweets|] == SUFFIX
        && FileName(Stem(names[|tweets|])) !in files
        && failure.value == TweetPath(Stem(names[|tweets|]))
    {
      var ids;
      ids, names := AllIds();
      tweets, failure := UnstashMany(ids);
      if SUFFIX !in files {
        ReadListing(files, names, tweets);
      }
      if failure.Some? {
        var name := names[|tweets|];
        assert name in JsonNames(files);
        if name != SUFFIX {
          FileNameOfStem(name);
        }
      }
    }
  }

  /** A client of the stash: stashing a tweet and reading its id back gives
      the tweet when it was new or `overwrite` is set, and otherwise leaves
      the stash as it was and gives the tweet stored before. */
  method StashThenUnstash(stash: FileStash, tweet: Tweet, overwrite: bool) returns (r: ReadResult)
    modifies stash
    ensures stash.files == Stashed(old(stash.files), tweet, overwrite)
    ensures FileName(tweet.idStr) in stash.files
    ensures overwrite || FileName(tweet.idStr) !in old(stash.files) ==> r == Found(tweet)
    ensures !overwrite && FileName(tweet.idStr) in old(stash.files) ==>
      stash.files == old(stash.files) && r == Found(old(stash.files)[FileName(tweet.idStr)])
  {
    stash.Stash(tweet, overwrite);
    var stashed := stash.IsStashed(tweet.idStr);
    assert stashed;
    r := stash.Unstash(tweet.idStr);
  }
}
