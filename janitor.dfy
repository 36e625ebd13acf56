/** The retention rule of the background cleaner (`clean_old_files`): one scan
    of the upload folder removes every listed entry whose modification time
    is strictly older than ten minutes before the scan's clock reading. */
module Janitor {
  import opened Common

  /** Age limit of a working-storage entry, in seconds (app.py line 71). */
  const RetentionSeconds: real := 600.0

  /** The test of app.py line 71: the comparison is strict. */
  predicate Expired(e: Entry, now: real) {
    e.mtime < now - RetentionSeconds
  }

  /** Where a scan leaves the folder, and whether it reached the end of its
      listing. */
  datatype Cycle = Cycle(folder: Folder, completed: bool)

  /** One scan over `listing`, the names `os.listdir` returned, in their
      order. Per name, `os.stat` (outside the `try`) raises and ends the scan
      when the name is gone; an expired entry is removed unless `os.remove`
      refuses (`undeletable`), and a refusal is ignored. */
  function Sweep(folder: Folder, listing: seq<string>, now: real, undeletable: set<string>): Cycle
    decreases |listing|
  {
    if listing == [] then Cycle(folder, true)
    else
      var prev := Sweep(folder, listing[..|listing| - 1], now, undeletable);
      var name := listing[|listing| - 1];
      if !prev.completed then prev
      else if name !in prev.folder then Cycle(prev.folder, false)
      else if Expired(prev.folder[name], now) && name !in undeletable then Cycle(prev.folder - {name}, true)
      else prev
  }

  /** Whether or not it completes, a scan only removes entries, and only
      listed, expired, deletable ones; what stays is unchanged. */
  lemma {:induction false} SweepOnlyRemoves(folder: Folder, listing: seq<string>, now: real,
                                           undeletable: set<string>)
    ensures var c := Sweep(folder, listing, now, undeletable);
      && (forall k :: k in c.folder ==> k in folder && c.folder[k] == folder[k])
      && (forall k :: k in folder && k !in c.folder ==>
            k in listing && Expired(folder[k], now) && k !in undeletable)
    decreases |listing|
  {
    if listing != [] {
      var init := listing[..|listing| - 1];
      SweepOnlyRemoves(folder, init, now, undeletable);
      assert forall k :: k in init ==> k in listing;
    }
  }

  predicate Distinct(s: seq<string>) {
    forall i, j :: 0 <= i < j < |s| ==> s[i] != s[j]
  }

  /** What `os.listdir` returns for `folder`: each name once. */
  predicate IsListingOf(listing: seq<string>, folder: Folder) {
    && Distinct(listing)
    && (forall k :: k in folder ==> k in listing)
    && (forall i :: 0 <= i < |listing| ==> listing[i] in folder)
  }

  /** Reference definition: `folder` without exactly its listed, expired,
      deletable entries. */
  function Survivors(folder: Folder, listing: seq<string>, now: real, undeletable: set<string>): Folder {
    map k | k in folder && !(k in listing && Expired(folder[k], now) && k !in undeletable) :: folder[k]
  }

  /** A scan completes exactly when every listed name is still there, and
      then it leaves the survivors; a refusal to delete one entry does not
      stop the entries after it from being examined. */
  lemma {:induction false} SweepIsSurvivors(folder: Folder, listing: seq<string>, now: real,
                                           undeletable: set<string>)
    requires Distinct(listing)
    ensures Sweep(folder, listing, now, undeletable).completed
            <==> forall i :: 0 <= i < |listing| ==> listing[i] in folder
    ensures Sweep(folder, listing, now, undeletable).completed
            ==> Sweep(folder, listing, now, undeletable).folder == Survivors(folder, listing, now, undeletable)
  {
    if listing != [] {
      var init, name := listing[..|listing| - 1], listing[|listing| - 1];
      assert listing == init + [name];
      SweepIsSurvivors(folder, init, now, undeletable);
      var prev := Sweep(folder, init, now, undeletable);
      assert name !in init;
      if prev.completed {
        assert name in prev.folder <==> name in folder;
        var after := Survivors(folder, listing, now, undeletable);
        if name in folder {
          assert prev.folder[name] == folder[name];
          if Expired(folder[name], now) && name !in undeletable {
            assert prev.folder - {name} == after;
          } else {
            assert prev.folder == after;
          }
        }
      } else {
        var i :| 0 <= i < |init| && init[i] !in folder;
        assert listing[i] !in folder;
      }
    }
  }

  /** One scan of a fresh listing, with no refused deletion, keeps exactly
      the entries that are not expired, each unchanged. */
  lemma CycleRemovesExactlyExpired(folder: Folder, listing: seq<string>, now: real)
    requires IsListingOf(listing, folder)
    ensures var c := Sweep(folder, listing, now, {});
      && c.completed
      && (forall k :: k in c.folder <==> k in folder && !Expired(folder[k], now))
      && (forall k :: k in c.folder ==> c.folder[k] == folder[k])
  {
    SweepIsSurvivors(folder, listing, now, {});
  }

  /** Refused deletions are isolated: whatever `os.remove` refuses, every
      other listed expired entry is removed and every refused, fresh or
      unlisted entry stays as it was. */
  lemma RemovalFailuresIsolated(folder: Folder, listing: seq<string>, now: real,
                                undeletable: set<string>)
    requires Distinct(listing)
    requires forall i :: 0 <= i < |listing| ==> listing[i] in folder
    ensures var c := Sweep(folder, listing, now, undeletable);
      && c.completed
      && (forall i :: 0 <= i < |listing| && Expired(folder[listing[i]], now) && listing[i] !in undeletable
            ==> listing[i] !in c.folder)
      && (forall k :: k in folder && (k in undeletable || !Expired(folder[k], now) || k !in listing)
            ==> k in c.folder && c.folder[k] == folder[k])
  {
    SweepIsSurvivors(folder, listing, now, undeletable);
  }

  /** The retention window: an entry last written at `written` survives
      every scan up to and including `written + 600` (the boundary case
      `mtime == now - 600` is kept) and is removed by the first listed scan
      after it, unless its deletion is refused. */
  lemma RetentionWindow(folder: Folder, listing: seq<string>, now: real,
                        undeletable: set<string>, name: string)
    requires IsListingOf(listing, folder)
    requires name in folder
    ensures var c := Sweep(folder, listing, now, undeletable);
      && c.completed
      && (now <= folder[name].mtime + RetentionSeconds ==> name in c.folder && c.folder[name] == folder[name])
      && (now > folder[name].mtime + RetentionSeconds && name !in undeletable ==> name !in c.folder)
  {
    SweepIsSurvivors(folder, listing, now, undeletable);
  }

  /** A listing that names an entry already gone (deleted by someone else
      since `os.listdir`) ends the scan at that name: the `os.stat` raises. */
  lemma StaleListingEndsCycle(folder: Folder, listing: seq<string>, now: real,
                              undeletable: set<string>, i: nat)
    requires Distinct(listing)
    requires i < |listing| && listing[i] !in folder
    ensures !Sweep(folder, listing, now, undeletable).completed
  {
    SweepIsSurvivors(folder, listing, now, undeletable);
  }

  /** A scan that has ended stays ended. */
  lemma {:induction false} SweepStopped(folder: Folder, listing: seq<string>, n: nat, now: real,
                                        undeletable: set<string>)
    requires n <= |listing|
    requires !Sweep(folder, listing[..n], now, undeletable).completed
    ensures Sweep(folder, listing, now, undeletable) == Sweep(folder, listing[..n], now, undeletable)
    decreases |listing| - n
  {
    if n < |listing| {
      assert listing[..n + 1][..n] == listing[..n];
      SweepStopped(folder, listing, n + 1, now, undeletable);
    } else {
      assert listing[..n] == listing;
    }
  }
}
