/**
 * The entry list of `PasswordManager`: the (site, password) records, the
 * existence check, add-or-replace, delete-first-match and the copy handed
 * out, with the encrypted vault file reduced to the list it last stored.
 */
module Manager {
  import opened Common
  import Alphabet
  import PasswordBuilder

  /**
   * One vault record. `site` is None for a record without a "site" key;
   * only a vault file written by something else can hold one.
   */
  datatype Entry = Entry(site: Option<string>, password: string)

  /**
   * The vault file: absent, holding the list it last stored together with the
   * master password its key is locked under, or damaged so that it decrypts
   * under no master password.
   */
  datatype Vault = NoFile | Stored(entries: seq<Entry>, master: string) | Undecryptable

  /**
   * A manager: its list, whether it is backed by a vault file (`_saving`),
   * its master password (`_master_password`, empty and unused when there is
   * no file), what that file holds, and how many times it has been written.
   */
  datatype State = State(entries: seq<Entry>, saving: bool, master: string, vault: Vault, saves: nat)

  /** The manager after an operation, and the operation's return value or the exception it raised. */
  datatype Reply<+T> = Reply(after: State, result: Result<T>)

  /** The list after an update loop, and the exception that cut the loop short, if any. */
  datatype Updated = Updated(entries: seq<Entry>, failure: Option<Error>)

  // ---------------------------------------------------------------------
  // Reference notions
  // ---------------------------------------------------------------------

  /** Every record has a "site" key. */
  predicate Keyed(es: seq<Entry>)
  {
    forall j :: 0 <= j < |es| ==> es[j].site.Some?
  }

  /** Every record has a "site" key and no two records share a site. */
  predicate UniqueSites(es: seq<Entry>)
  {
    Keyed(es) && forall i, j :: 0 <= i < j < |es| ==> es[i].site != es[j].site
  }

  /** The vault file holds the list whenever the manager is backed by one. */
  predicate Synced(m: State)
  {
    m.saving ==> m.vault == Stored(m.entries, m.master)
  }

  /** The position of the first record without a "site" key, or the length when every record has one. */
  function FirstKeyless(es: seq<Entry>): (n: nat)
    ensures n <= |es|
    ensures forall j :: 0 <= j < n ==> es[j].site.Some?
    ensures n < |es| ==> es[n].site.None?
  {
    if es == [] then 0
    else if es[0].site.None? then 0
    else 1 + FirstKeyless(es[1..])
  }

  /**
   * The position at which a scan for `site` stops: the first record that
   * either holds `site` or has no "site" key, or the length when there is none.
   */
  function FirstStop(es: seq<Entry>, site: string): (n: nat)
    ensures n <= |es|
    ensures forall j :: 0 <= j < n ==> es[j].site.Some? && es[j].site != Some(site)
    ensures n < |es| ==> es[n].site.None? || es[n].site == Some(site)
  {
    if es == [] then 0
    else if es[0].site.None? || es[0].site == Some(site) then 0
    else 1 + FirstStop(es[1..], site)
  }

  // ---------------------------------------------------------------------
  // Operations
  // ---------------------------------------------------------------------

  /** `password_exists`: some record has a "site" key holding `site`. */
  function PasswordExists(es: seq<Entry>, site: string): (r: bool)
    ensures r <==> exists j :: 0 <= j < |es| && es[j].site == Some(site)
  {
    if es == [] then false
    else if es[0].site == Some(site) then true
    else PasswordExists(es[1..], site)
  }

  /**
   * The replacement loop of `generate_password`: every record of the site is
   * overwritten by `entry`, in place; the first record without a "site" key
   * raises a KeyError, leaving the records before it updated and the rest as
   * they were.
   */
  function ReplaceAll(es: seq<Entry>, site: string, entry: Entry): (r: Updated)
    ensures |r.entries| == |es|
    ensures r.failure == if Keyed(es) then None else Some(KeyError)
    ensures forall j :: 0 <= j < |es| ==>
              r.entries[j] == if j < FirstKeyless(es) && es[j].site == Some(site) then entry else es[j]
  {
    if es == [] then Updated([], None)
    else match es[0].site
      case None => Updated(es, Some(KeyError))
      case Some(s) =>
        var rest := ReplaceAll(es[1..], site, entry);
        var e := if s == site then entry else es[0];
        assert forall j :: 1 <= j < |es| ==> es[j] == es[1..][j - 1];
        Updated([e] + rest.entries, rest.failure)
  }

  /**
   * The list update of `generate_password`: an existing site has all its
   * records replaced in place; a new site is appended at the end.
   */
  function Store(es: seq<Entry>, site: string, password: string): (r: Updated)
    ensures PasswordExists(es, site) ==>
              |r.entries| == |es|
              && r.failure == (if Keyed(es) then None else Some(KeyError))
              && forall j :: 0 <= j < |es| ==>
                   r.entries[j] == if j < FirstKeyless(es) && es[j].site == Some(site)
                                   then Entry(Some(site), password) else es[j]
    ensures !PasswordExists(es, site) ==>
              r.failure == None && |r.entries| == |es| + 1
              && r.entries[..|es|] == es && r.entries[|es|] == Entry(Some(site), password)
    ensures r.failure == None ==>
              PasswordExists(r.entries, site)
              && forall j :: 0 <= j < |r.entries| && r.entries[j].site == Some(site) ==>
                   r.entries[j].password == password
  {
    var entry := Entry(Some(site), password);
    if PasswordExists(es, site) then
      var u := ReplaceAll(es, site, entry);
      if u.failure == None then ReplacedSiteHoldsEntry(es, site, entry); u else u
    else
      var r := es + [entry];
      assert r[..|es|] == es && r[|es|] == entry;
      Updated(r, None)
  }

  /** On a list without keyless records, replacing an existing site leaves it present and holding `entry` only. */
  lemma ReplacedSiteHoldsEntry(es: seq<Entry>, site: string, entry: Entry)
    requires Keyed(es) && PasswordExists(es, site) && entry.site == Some(site)
    ensures PasswordExists(ReplaceAll(es, site, entry).entries, site)
    ensures forall j :: 0 <= j < |es| && ReplaceAll(es, site, entry).entries[j].site == Some(site) ==>
              ReplaceAll(es, site, entry).entries[j] == entry
  {
    KeyedRunsThrough(es);
    var j :| 0 <= j < |es| && es[j].site == Some(site);
    assert ReplaceAll(es, site, entry).entries[j] == entry;
  }

  /**
   * What deleting the first record of `site` means: nothing to remove when the
   * scan finds neither the site nor a record without a "site" key; a KeyError
   * when it meets such a record first; otherwise the list without the record
   * where the scan stopped.
   */
  function RemoveAtStop(es: seq<Entry>, site: string): Result<seq<Entry>>
  {
    var n := FirstStop(es, site);
    if n == |es| then Ok(es)
    else if es[n].site.None? then Err(KeyError)
    else Ok(es[..n] + es[n + 1..])
  }

  /**
   * The deletion loop of `delete_password`: the first record of the site is
   * removed and the loop stops; a record without a "site" key before it
   * raises a KeyError and nothing is removed.
   */
  function DeleteFirst(es: seq<Entry>, site: string): (r: Result<seq<Entry>>)
    ensures r == RemoveAtStop(es, site)
  {
    if es == [] then Ok([])
    else match es[0].site
      case None => Err(KeyError)
      case Some(s) =>
        if s == site then
          assert es[..0] + es[1..] == es[1..];
          Ok(es[1..])
        else
          RemoveAtStopStep(es, site);
          match DeleteFirst(es[1..], site)
          case Err(e) => Err(e)
          case Ok(tail) => Ok([es[0]] + tail)
  }

  /** Past a record of another site, the removal happens in the tail. */
  lemma RemoveAtStopStep(es: seq<Entry>, site: string)
    requires |es| > 0 && es[0].site.Some? && es[0].site != Some(site)
    ensures RemoveAtStop(es, site) ==
              match RemoveAtStop(es[1..], site)
              case Err(e) => Err(e)
              case Ok(tail) => Ok([es[0]] + tail)
  {
    var n := FirstStop(es[1..], site);
    assert FirstStop(es, site) == n + 1;
    if n == |es| - 1 {
      assert [es[0]] + es[1..] == es;
    } else {
      assert es[n + 1] == es[1..][n];
      assert es[..n + 1] == [es[0]] + es[1..][..n];
      assert es[n + 2..] == es[1..][n + 1..];
      var tail := es[1..];
      assert [es[0]] + (tail[..n] + tail[n + 1..]) == es[..n + 1] + es[n + 2..];
    }
  }

  /** `_save_vault`: a manager backed by a file writes its whole list there; one without does nothing. */
  function Save(m: State): (r: State)
    ensures Synced(r) && r.entries == m.entries && r.saving == m.saving && r.master == m.master
    ensures r.saves == if m.saving then m.saves + 1 else m.saves
    ensures !m.saving ==> r == m
  {
    if m.saving then m.(vault := Stored(m.entries, m.master), saves := m.saves + 1) else m
  }

  /** The constructor arguments that make the manager load a vault file. */
  predicate Backed(path: Option<string>, master: Option<string>)
  {
    path.Some? && |path.value| > 0 && master.Some? && |master.value| > 0
  }

  /** The vault file cannot be opened with `master`: it is damaged or locked under another master password. */
  predicate Refuses(vault: Vault, master: string)
  {
    vault == Undecryptable || (vault.Stored? && vault.master != master)
  }

  /**
   * The constructor with `_load_vault`: given a non-empty path and master
   * password, an existing file is unlocked with the master password and its
   * list taken over (a damaged file, or one locked under another master
   * password, raises the ValueError of the cipher), and a missing file is
   * created, locked under the master password and holding the empty list;
   * otherwise the manager keeps its list in memory only and never writes.
   * `vault` is what the file at `path` holds.
   */
  function Open(path: Option<string>, master: Option<string>, vault: Vault): (r: Result<State>)
    ensures r.Err? <==> Backed(path, master) && Refuses(vault, master.value)
    ensures r.Err? ==> r.error == ValueError
    ensures r.Ok? ==> Synced(r.value) && r.value.saving == Backed(path, master)
    ensures r.Ok? && !Backed(path, master) ==> r.value.entries == [] && r.value.saves == 0
    ensures r.Ok? && Backed(path, master) ==> r.value.master == master.value
    ensures r.Ok? && Backed(path, master) && vault.Stored? ==>
              r.value.entries == vault.entries && r.value.saves == 0
    ensures r.Ok? && Backed(path, master) && vault == NoFile ==>
              r.value.entries == [] && r.value.vault == Stored([], master.value) && r.value.saves == 1
  {
    if !Backed(path, master) then Ok(State([], false, "", vault, 0))
    else match vault
      case Undecryptable => Err(ValueError)
      case Stored(es, key) =>
        if key != master.value then Err(ValueError) else Ok(State(es, true, key, vault, 0))
      case NoFile => Ok(Save(State([], true, master.value, vault, 0)))
  }

  /** The arguments `generate_password` turns away with None before generating anything. */
  predicate Declined(length: int, site: Option<string>, phrase: Option<string>)
  {
    length < 1 || site.None? || site.value == "" || phrase.None? || phrase.value == ""
  }

  /**
   * `generate_password`: None for declined arguments; the exception of
   * `make_password` for sites or phrases outside the alphabet; otherwise the
   * new password, stored for the site and written to the vault. A KeyError
   * from the replacement loop leaves the partly updated list unsaved.
   */
  function GeneratePassword(m: State, length: int, site: Option<string>, phrase: Option<string>,
                            roll: nat -> nat): (r: Reply<Option<string>>)
    ensures Declined(length, site, phrase) ==> r == Reply(m, Ok(None))
    ensures !Declined(length, site, phrase) ==>
              var made := PasswordBuilder.MakePassword(length, site.value, phrase.value, roll);
              (made.Err? ==> r == Reply(m, Err(made.error)))
              && (made.Ok? ==> r == Commit(m, site.value, made.value))
    ensures r.result.Ok? && r.result.value.Some? ==>
              var password := r.result.value.value;
              site.Some? && |password| == length && Alphabet.Valid(password)
              && PasswordExists(r.after.entries, site.value)
              && forall j :: 0 <= j < |r.after.entries| && r.after.entries[j].site == site ==>
                   r.after.entries[j].password == password
    ensures r.after.saving == m.saving && r.after.master == m.master
  {
    if Declined(length, site, phrase) then Reply(m, Ok(None))
    else match PasswordBuilder.MakePassword(length, site.value, phrase.value, roll)
      case Err(e) => Reply(m, Err(e))
      case Ok(password) => Commit(m, site.value, password)
  }

  /**
   * The second half of `generate_password`: store the new password for the
   * site and write the vault, returning the password; a KeyError from the
   * replacement loop leaves the partly updated list unsaved.
   */
  function Commit(m: State, site: string, password: string): (r: Reply<Option<string>>)
    ensures r.result.Ok? <==> Store(m.entries, site, password).failure.None?
    ensures r.result.Ok? ==> r.result.value == Some(password) && Synced(r.after)
    ensures r.result.Ok? ==>
              PasswordExists(r.after.entries, site)
              && forall j :: 0 <= j < |r.after.entries| && r.after.entries[j].site == Some(site) ==>
                   r.after.entries[j].password == password
    ensures r.result.Err? ==> r.result.error == KeyError && r.after.vault == m.vault
    ensures r.after.entries == Store(m.entries, site, password).entries
    ensures r.after.saving == m.saving && r.after.master == m.master
    ensures r.after.saves == if m.saving && r.result.Ok? then m.saves + 1 else m.saves
  {
    var u := Store(m.entries, site, password);
    if u.failure.Some? then Reply(m.(entries := u.entries), Err(u.failure.value))
    else Reply(Save(m.(entries := u.entries)), Ok(Some(password)))
  }

  /**
   * `delete_password`: an absent site changes nothing and writes nothing;
   * otherwise the first record of the site is removed and the list written.
   */
  function DeletePassword(m: State, site: string): (r: Reply<()>)
    ensures !PasswordExists(m.entries, site) ==> r == Reply(m, Ok(()))
    ensures r.result.Err? <==> PasswordExists(m.entries, site) && DeleteFirst(m.entries, site).Err?
    ensures r.result.Err? ==> r.after == m && r.result.error == KeyError
    ensures r.result.Ok? && PasswordExists(m.entries, site) ==>
              DeleteFirst(m.entries, site).Ok?
              && r.after == Save(m.(entries := DeleteFirst(m.entries, site).value))
    ensures Synced(m) ==> Synced(r.after)
    ensures r.after.saving == m.saving && r.after.master == m.master
  {
    if !PasswordExists(m.entries, site) then Reply(m, Ok(()))
    else match DeleteFirst(m.entries, site)
      case Err(e) => Reply(m, Err(e))
      case Ok(es) => Reply(Save(m.(entries := es)), Ok(()))
  }

  /**
   * `get_passwords`: a deep copy of the list. Values here are immutable, so
   * the copy equals the list and no later change to it reaches the manager.
   */
  function GetPasswords(m: State): (r: seq<Entry>)
    ensures |r| == |m.entries| && forall j :: 0 <= j < |r| ==> r[j] == m.entries[j]
  {
    m.entries
  }

  /** `is_valid_string` of the manager: the generator's alphabet check. */
  function IsValidString(phrase: string): (r: bool)
    ensures r <==> forall i :: 0 <= i < |phrase| ==> phrase[i] in Alphabet.PhraseChars
  {
    Alphabet.IsValidString(phrase)
  }

  // ---------------------------------------------------------------------
  // Properties of the list operations
  // ---------------------------------------------------------------------

  /** Without keyless records the scan for keyless records runs to the end. */
  lemma KeyedRunsThrough(es: seq<Entry>)
    requires Keyed(es)
    ensures FirstKeyless(es) == |es|
  {
  }

  /**
   * Replacing an existing site: the length stays, every record of the site
   * now holds the new password, and every other record is untouched.
   */
  lemma StoreReplacesInPlace(es: seq<Entry>, site: string, password: string)
    requires Keyed(es) && PasswordExists(es, site)
    ensures Store(es, site, password).failure == None
    ensures |Store(es, site, password).entries| == |es|
    ensures forall j :: 0 <= j < |es| ==>
              Store(es, site, password).entries[j]
                == if es[j].site == Some(site) then Entry(Some(site), password) else es[j]
  {
    KeyedRunsThrough(es);
  }

  /** Adding a new site and then deleting it gives back the original list. */
  lemma DeleteUndoesStore(es: seq<Entry>, site: string, password: string)
    requires Keyed(es) && !PasswordExists(es, site)
    ensures DeleteFirst(Store(es, site, password).entries, site) == Ok(es)
  {
    var r := Store(es, site, password).entries;
    assert r == es + [Entry(Some(site), password)];
    var n := FirstStop(r, site);
    assert r[|es|].site == Some(site);
    assert n == |es|;
    assert r[..n] + r[n + 1..] == es;
  }

  /** Storing keeps the sites of a list with unique sites unique. */
  lemma StoreKeepsSitesUnique(es: seq<Entry>, site: string, password: string)
    requires UniqueSites(es)
    ensures Store(es, site, password).failure == None
    ensures UniqueSites(Store(es, site, password).entries)
  {
    if PasswordExists(es, site) {
      StoreReplacesInPlace(es, site, password);
    }
  }

  /**
   * On a list whose every record has a "site" key, deleting an existing site
   * succeeds and removes exactly its first record.
   */
  lemma DeleteKeyedRemovesFirst(m: State, site: string)
    requires Keyed(m.entries) && PasswordExists(m.entries, site)
    ensures var n := FirstStop(m.entries, site);
            n < |m.entries| && m.entries[n].site == Some(site)
            && (forall j :: 0 <= j < n ==> m.entries[j].site != Some(site))
            && DeletePassword(m, site).result == Ok(())
            && DeletePassword(m, site).after.entries == m.entries[..n] + m.entries[n + 1..]
  {
    var es := m.entries;
    var n := FirstStop(es, site);
    var j :| 0 <= j < |es| && es[j].site == Some(site);
    assert n <= j;
    assert es[n].site == Some(site);
    assert DeleteFirst(es, site) == Ok(es[..n] + es[n + 1..]);
  }

  /** Deleting a site of a list with unique sites removes its only record, so the site is gone. */
  lemma DeleteRemovesUniqueSite(es: seq<Entry>, site: string)
    requires UniqueSites(es) && PasswordExists(es, site)
    ensures DeleteFirst(es, site).Ok?
    ensures !PasswordExists(DeleteFirst(es, site).value, site)
    ensures UniqueSites(DeleteFirst(es, site).value)
    ensures |DeleteFirst(es, site).value| == |es| - 1
  {
    var n := FirstStop(es, site);
    var j :| 0 <= j < |es| && es[j].site == Some(site);
    assert n <= j;
    assert es[n].site == Some(site);
    assert DeleteFirst(es, site) == Ok(es[..n] + es[n + 1..]);
    RemovalDropsSite(es, n);
    RemovalKeepsSitesUnique(es, n);
  }

  /** Removing the record at `n` from a list with unique sites leaves no record of its site. */
  lemma RemovalDropsSite(es: seq<Entry>, n: nat)
    requires UniqueSites(es) && n < |es|
    ensures !PasswordExists(es[..n] + es[n + 1..], es[n].site.value)
  {
    var r := es[..n] + es[n + 1..];
    RemoveAtShape(es, n);
    forall k | 0 <= k < |r|
      ensures r[k].site != es[n].site
    {
      var i := if k < n then k else k + 1;
      assert r[k] == es[i];
    }
  }

  /** Removing a record keeps the sites of a list with unique sites unique. */
  lemma RemovalKeepsSitesUnique(es: seq<Entry>, n: nat)
    requires UniqueSites(es) && n < |es|
    ensures UniqueSites(es[..n] + es[n + 1..])
  {
    var r := es[..n] + es[n + 1..];
    RemoveAtShape(es, n);
    forall a, b | 0 <= a < b < |r|
      ensures r[a].site != r[b].site
    {
      var i := if a < n then a else a + 1;
      var i' := if b < n then b else b + 1;
      assert r[a] == es[i] && r[b] == es[i'] && i < i';
    }
  }

  /** Removing position `n` shifts the later elements down by one. */
  lemma RemoveAtShape<T>(s: seq<T>, n: nat)
    requires n < |s|
    ensures |s[..n] + s[n + 1..]| == |s| - 1
    ensures forall k :: 0 <= k < |s| - 1 ==> (s[..n] + s[n + 1..])[k] == if k < n then s[k] else s[k + 1]
  {
  }

  // ---------------------------------------------------------------------
  // Properties of the manager
  // ---------------------------------------------------------------------

  /** A list with unique sites keeps them unique through `generate_password`. */
  lemma GenerateKeepsSitesUnique(m: State, length: int, site: Option<string>, phrase: Option<string>,
                                 roll: nat -> nat)
    requires UniqueSites(m.entries)
    ensures GeneratePassword(m, length, site, phrase, roll).result != Err(KeyError)
    ensures UniqueSites(GeneratePassword(m, length, site, phrase, roll).after.entries)
  {
    if !Declined(length, site, phrase) {
      var made := PasswordBuilder.MakePassword(length, site.value, phrase.value, roll);
      if made.Ok? {
        StoreKeepsSitesUnique(m.entries, site.value, made.value);
      }
    }
  }

  /** Every operation that returns normally leaves the vault file holding the list. */
  lemma OperationsKeepVaultSynced(m: State, length: int, site: Option<string>, phrase: Option<string>,
                                  roll: nat -> nat, gone: string)
    requires Synced(m)
    ensures GeneratePassword(m, length, site, phrase, roll).result.Ok? ==>
              Synced(GeneratePassword(m, length, site, phrase, roll).after)
    ensures Synced(DeletePassword(m, gone).after)
  {
  }

  /**
   * A manager reopened on the vault file it wrote, with the master password
   * the file is locked under, gets the same list back.
   */
  lemma ReopenRestoresList(m: State, path: Option<string>, master: Option<string>)
    requires Backed(path, master) && master.value == m.master && m.saving && Synced(m)
    ensures Open(path, master, m.vault) == Ok(State(m.entries, true, m.master, m.vault, 0))
  {
  }

  /** Reopening the vault file a manager wrote with any other master password raises ValueError. */
  lemma ReopenRefusesOtherMaster(m: State, path: Option<string>, master: Option<string>)
    requires Backed(path, master) && master.value != m.master && m.saving && Synced(m)
    ensures Open(path, master, m.vault) == Err(ValueError)
  {
  }

  /**
   * Generating a password for a new site and deleting that site again leaves
   * the list as it was; the vault is written twice.
   */
  lemma GenerateThenDeleteRestores(m: State, length: int, site: string, phrase: Option<string>,
                                   roll: nat -> nat)
    requires Keyed(m.entries) && !PasswordExists(m.entries, site)
    ensures var r := GeneratePassword(m, length, Some(site), phrase, roll);
            r.result.Ok? && r.result.value.Some? ==>
              DeletePassword(r.after, site).result.Ok?
              && DeletePassword(r.after, site).after.entries == m.entries
              && DeletePassword(r.after, site).after.saves == if m.saving then m.saves + 2 else m.saves
  {
    var r := GeneratePassword(m, length, Some(site), phrase, roll);
    if !(r.result.Ok? && r.result.value.Some?) {
      return;
    }
    var made := PasswordBuilder.MakePassword(length, site, phrase.value, roll);
    CommitThenDeleteRestores(m, site, made.value);
  }

  /** Storing a password for a new site and deleting that site again leaves the list as it was. */
  lemma CommitThenDeleteRestores(m: State, site: string, password: string)
    requires Keyed(m.entries) && !PasswordExists(m.entries, site)
    ensures var c := Commit(m, site, password);
            DeletePassword(c.after, site).result.Ok?
            && DeletePassword(c.after, site).after.entries == m.entries
            && DeletePassword(c.after, site).after.saves == if m.saving then m.saves + 2 else m.saves
  {
    DeleteUndoesStore(m.entries, site, password);
  }

  /** `delete_password` on an absent site leaves the manager as it was and writes nothing. */
  lemma DeleteAbsentChangesNothing(m: State, site: string)
    requires forall j :: 0 <= j < |m.entries| ==> m.entries[j].site != Some(site)
    ensures DeletePassword(m, site) == Reply(m, Ok(()))
    ensures DeletePassword(m, site).after.saves == m.saves
  {
  }

  /** The copy handed out after a generation shows the new record. */
  lemma GetPasswordsShowsGenerated(m: State, length: int, site: Option<string>, phrase: Option<string>,
                                   roll: nat -> nat)
    ensures var r := GeneratePassword(m, length, site, phrase, roll);
            r.result.Ok? && r.result.value.Some? ==>
              site.Some? && Entry(site, r.result.value.value) in GetPasswords(r.after)
  {
    var r := GeneratePassword(m, length, site, phrase, roll);
    if !(r.result.Ok? && r.result.value.Some?) {
      return;
    }
    var es := r.after.entries;
    var j :| 0 <= j < |es| && es[j].site == Some(site.value);
    assert es[j] == Entry(site, r.result.value.value);
  }
}
