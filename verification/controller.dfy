/**
 * `Container`: the dashboard. An accounts panel on the left, a posts panel on
 * the right, a key footer along the bottom and an optional follow modal on
 * top. Keys go to whatever has the focus; a panel rejects everything but `j`
 * and `k`, and a rejected key falls through to the dashboard's own key table.
 * Fetching posts is asynchronous: an operation returns the handles whose
 * fetch it starts, and `LoadComplete` applies a finished fetch.
 */
module Controller {
  import opened Wrappers
  import opened Geometry
  import opened Terminal
  import opened Border
  import opened Contents
  import opened Panels
  import Modals

  const AccountsTitle: string := "Fucking Twats!"
  const PostsTitle: string := "Tweets"
  const FooterTitle: string := "Key"
  const FollowTitle: string := "Follow"
  const FollowWidth: nat := 23
  const FollowHeight: nat := 4

  /** The accounts column is at least as wide as this label plus six cells. */
  const AccountsLabel: string := "Fucking Twats"
  const MinAccountsWidth: nat := |AccountsLabel| + 6

  /** A fetched post; only its date and text are ever shown. */
  datatype Post = Post(date: string, text: string)

  /**
   * What receives keys. The modal is present exactly when it has the focus
   * (opening it focuses it and confirming it closes it and focuses the
   * accounts), so it lives inside the focus target.
   */
  datatype Target = Accounts | Posts | OnModal(modal: Modals.Modal)

  /**
   * The dashboard state: both panels, the focus, the render-loop flag, the
   * posts fetched per handle, the stored handles (the accounts table, in
   * selection order, usernames unique) and the footer entries.
   */
  datatype Dashboard = Dashboard(
    accounts: Panel,
    posts: Panel,
    focus: Target,
    running: bool,
    cache: map<string, seq<Post>>,
    store: seq<string>,
    footer: seq<Content>)

  /**
   * Why the program stops: a stored handle that is not valid content; the
   * `d` key indexing a list with an item; or the accounts focus callback,
   * run by `focus_left`, reaching through the posts selection that
   * `focus_left` has just cleared.
   */
  datatype Fault = BadHandle | IndexedByContent | NoPostsSelection

  /**
   * The result of an event: the new state, the handles whose fetch starts,
   * and whether the accounts focus callback ran (under `j`/`k`, where an
   * error it raises is absorbed by the key dispatch); or a crash.
   */
  datatype Outcome = Next(dash: Dashboard, fetches: seq<string>, cascade: bool) | Crash(fault: Fault)

  /** The handles the accounts panel shows, in order: the keys of the source's handle-to-item table. */
  function Texts(items: seq<Content>): (r: seq<string>)
    ensures |r| == |items| && forall k :: 0 <= k < |items| ==> r[k] == items[k].text
  {
    seq(|items|, k requires 0 <= k < |items| => items[k].text)
  }

  /** Sets the spinner of every item showing handle h to v. */
  function SetSpinner(items: seq<Content>, h: string, v: int): (r: seq<Content>)
    ensures |r| == |items|
    ensures forall k :: 0 <= k < |items| ==> r[k] == if items[k].text == h then items[k].(spinner := v) else items[k]
  {
    seq(|items|, k requires 0 <= k < |items| => if items[k].text == h then items[k].(spinner := v) else items[k])
  }

  /** Sets the spinner of every item to v. */
  function SpinAll(items: seq<Content>, v: int): (r: seq<Content>)
    ensures |r| == |items|
    ensures forall k :: 0 <= k < |items| ==> r[k] == items[k].(spinner := v)
  {
    seq(|items|, k requires 0 <= k < |items| => items[k].(spinner := v))
  }

  /** No handle is stored twice (usernames are the accounts table's primary key). */
  predicate Unique(s: seq<string>) {
    forall i, j :: 0 <= i < j < |s| ==> s[i] != s[j]
  }

  /**
   * `refresh_twats`: one fresh left-aligned item per stored handle, in order;
   * a handle that is not valid content makes it fail.
   */
  function Fresh(store: seq<string>): (r: Result<seq<Content>, Fault>)
    ensures r.Success? <==> forall k :: 0 <= k < |store| ==> Admissible(store[k])
    ensures r.Success? ==> |r.value| == |store|
    ensures r.Success? ==> forall k :: 0 <= k < |store| ==> r.value[k] == Content(store[k], Left, false, -1)
    decreases |store|
  {
    if |store| == 0 then Success([])
    else
      match Contents.New(store[0], Left)
      case Failure(_) => Failure(BadHandle)
      case Success(c) =>
        match Fresh(store[1..])
        case Failure(e) => Failure(e)
        case Success(rest) =>
          assert forall k :: 1 <= k < |store| ==> store[k] == store[1..][k - 1];
          Success([c] + rest)
  }

  /**
   * `refresh_tweets(h)`: a non-empty handle that is shown gets its spinner
   * started and its fetch dispatched; otherwise every shown handle does.
   */
  function Refresh(items: seq<Content>, h: string): (seq<Content>, seq<string>) {
    if h != "" && h in Texts(items) then (SetSpinner(items, h, 0), [h])
    else (SpinAll(items, 0), Texts(items))
  }

  function Reverse<T>(s: seq<T>): (r: seq<T>)
    ensures |r| == |s|
    decreases |s|
  {
    if |s| == 0 then [] else Reverse(s[1..]) + [s[0]]
  }

  /**
   * `set_twats` then `set_tweets` (the `r` key, and start-up): fresh accounts
   * from the store with every spinner started and every fetch dispatched,
   * nothing selected, the callback registered, an empty posts panel, focus on
   * the accounts. A bad stored handle crashes.
   */
  function Reload(d: Dashboard): (r: Outcome)
    ensures r.Crash? <==> exists k :: 0 <= k < |d.store| && !Admissible(d.store[k])
    ensures r.Next? ==>
      && r.dash.accounts.title == AccountsTitle && r.dash.accounts.sel == NoSelection && r.dash.accounts.notify
      && Texts(r.dash.accounts.items) == d.store
      && (forall k :: 0 <= k < |d.store| ==> r.dash.accounts.items[k] == Content(d.store[k], Left, false, 0))
      && r.dash.posts == Panel(PostsTitle, [], NoSelection, false)
      && r.dash.focus == Accounts
      && r.fetches == d.store && !r.cascade
      && r.dash.(accounts := d.accounts, posts := d.posts, focus := d.focus) == d
  {
    match Fresh(d.store)
    case Failure(f) => Crash(f)
    case Success(items) =>
      var (spun, fetches) := Refresh(items, "");
      Next(d.(accounts := Panel(AccountsTitle, spun, NoSelection, true),
              posts := Panel(PostsTitle, [], NoSelection, false),
              focus := Accounts),
           fetches, false)
  }

  /** `Container.__init__`: an empty cache, the render loop on, then a reload. */
  function Launch(store: seq<string>, footer: seq<Content>): Outcome {
    Reload(Dashboard(Panel(AccountsTitle, [], NoSelection, true), Panel(PostsTitle, [], NoSelection, false),
                     Accounts, true, map[], store, footer))
  }

  /**
   * `follow(h)` (the modal's confirmation): store h unless already stored,
   * close the modal and focus the accounts, rebuild the accounts from the
   * store without clearing the old selection (which therefore no longer names
   * an item), and refresh h. A bad stored handle aborts the rebuild; the
   * exception is swallowed by the key dispatch.
   */
  function Follow(d: Dashboard, h: string): (r: Outcome)
    ensures r.Next? && !r.cascade
    ensures r.dash.store == (if h in d.store then d.store else d.store + [h]) && r.dash.focus == Accounts
    ensures r.dash.(accounts := d.accounts, store := d.store, focus := d.focus) == d
  {
    var store := if h in d.store then d.store else d.store + [h];
    var d1 := d.(store := store, focus := Accounts);
    match Fresh(store)
    case Failure(_) => Next(d1, [], false)
    case Success(items) =>
      var sel := if d.accounts.sel.NoSelection? then NoSelection else Detached;
      var (spun, fetches) := Refresh(items, h);
      Next(d1.(accounts := d.accounts.(items := spun, sel := sel)), fetches, false)
  }

  /** Drops a panel's selection, clearing the selected item's focus flag. */
  function ClearSelection(p: Panel): (r: Panel)
    requires WellFormed(p)
    ensures r.sel == NoSelection && r.title == p.title && r.notify == p.notify
    ensures SameButFocus(r.items, p.items)
    ensures forall k :: 0 <= k < |p.items| && p.sel != Selected(k) ==> r.items[k] == p.items[k]
    ensures p.sel.Selected? ==> !r.items[p.sel.index].focus
  {
    match p.sel
    case Selected(i) => p.(items := p.items[i := p.items[i].(focus := false)], sel := NoSelection)
    case _ => p.(sel := NoSelection)
  }

  /**
   * `focus_left`: focus the accounts, drop the posts selection, and move down
   * in the accounts if (and only if) nothing is selected there. The move's
   * callback sets a flag on the posts selection, which is now always `None`:
   * it raises, and outside the key table's own error handling, so the
   * program ends.
   */
  function FocusLeft(d: Dashboard): (r: Outcome)
    requires WellFormed(d.accounts) && WellFormed(d.posts)
  {
    var d1 := d.(focus := Accounts, posts := ClearSelection(d.posts));
    if d.accounts.sel.NoSelection? then
      var moved := FocusDown(d.accounts).value;
      if moved.fired then Crash(NoPostsSelection)
      else Next(d1.(accounts := moved.panel), [], false)
    else Next(d1, [], false)
  }

  /** `focus_right`: focus the posts, drop their selection, and move down in them. */
  function FocusRight(d: Dashboard): (r: Outcome)
    requires WellFormed(d.posts)
  {
    var cleared := ClearSelection(d.posts);
    var moved := FocusDown(cleared).value;
    Next(d.(focus := Posts, posts := moved.panel), [], moved.fired)
  }

  /** The keys the dashboard's own table handles. */
  predicate IsCommand(key: char) {
    key in "frdqhl"
  }

  /** The dashboard's key table, reached when the focused panel rejects a key. */
  function Command(d: Dashboard, key: char): (r: Outcome)
    requires WellFormed(d.accounts) && WellFormed(d.posts)
  {
    if key == 'f' then Next(d.(focus := OnModal(Modals.Open(FollowTitle, FollowWidth, FollowHeight))), [], false)
    else if key == 'r' then Reload(d)
    else if key == 'd' then Crash(IndexedByContent)
    else if key == 'q' then Next(d.(running := false), [], false)
    else if key == 'h' then FocusLeft(d)
    else if key == 'l' then FocusRight(d)
    else Next(d, [], false)
  }

  /**
   * `Container.input`: the focused element gets the key; the modal accepts
   * every key (carriage return follows the typed handle); a panel that
   * rejects the key (anything but `j`/`k`, or a selection that no longer
   * names an item) hands it to the key table.
   */
  function Input(d: Dashboard, key: char): (r: Outcome)
    requires WellFormed(d.accounts) && WellFormed(d.posts)
  {
    if d.focus.OnModal? then
      var step := Modals.Input(d.focus.modal, key);
      if step.confirmed.Some? then Follow(d, step.confirmed.value)
      else Next(d.(focus := OnModal(step.modal)), [], false)
    else if d.focus == Accounts then
      match Panels.Input(d.accounts, key)
      case Some(moved) => Next(d.(accounts := moved.panel), [], moved.fired)
      case None => Command(d, key)
    else
      match Panels.Input(d.posts, key)
      case Some(moved) => Next(d.(posts := moved.panel), [], moved.fired)
      case None => Command(d, key)
  }

  /**
   * The completion branch of `load_tweets`: the fetched posts are cached in
   * reverse order and the handle's spinner stops. Nothing else changes.
   */
  function LoadComplete(d: Dashboard, h: string, fetched: seq<Post>): (r: Dashboard)
    ensures h in r.cache && r.cache[h] == Reverse(fetched)
    ensures forall g :: g != h ==> (g in r.cache <==> g in d.cache)
    ensures forall g :: g != h && g in d.cache ==> r.cache[g] == d.cache[g]
    ensures |r.accounts.items| == |d.accounts.items|
    ensures forall k :: 0 <= k < |d.accounts.items| ==>
      r.accounts.items[k] == if d.accounts.items[k].text == h then d.accounts.items[k].(spinner := -1) else d.accounts.items[k]
    ensures r.(cache := d.cache, accounts := d.accounts) == d
    ensures r.accounts.(items := d.accounts.items) == d.accounts
  {
    d.(cache := d.cache[h := Reverse(fetched)],
       accounts := d.accounts.(items := SetSpinner(d.accounts.items, h, -1)))
  }

  /**
   * The states the dashboard keeps to: selections name items and carry the
   * single focus flag, the posts panel has no callback, a modal's buffer is
   * alphanumeric, and no handle is stored twice.
   */
  predicate Valid(d: Dashboard) {
    && WellFormed(d.accounts) && FocusAgrees(d.accounts)
    && WellFormed(d.posts) && FocusAgrees(d.posts)
    && !d.posts.notify
    && (d.focus.OnModal? ==> Modals.AllAlnum(d.focus.modal.buffer))
    && Unique(d.store)
  }

  /**
   * While the modal has the focus, every key but carriage return only edits
   * its buffer: the dashboard's own keys (`q` included) are unreachable.
   */
  lemma ModalSwallowsKeys(d: Dashboard, key: char)
    requires WellFormed(d.accounts) && WellFormed(d.posts) && d.focus.OnModal? && key != '\r'
    ensures var r := Input(d, key);
      && r.Next? && r.fetches == [] && !r.cascade
      && r.dash.focus.OnModal? && r.dash == d.(focus := r.dash.focus)
      && r.dash.focus.modal.buffer
         == if Modals.IsAlnum(key) then d.focus.modal.buffer + [key] else d.focus.modal.buffer
  {
  }

  /** In particular `q` does not stop the dashboard while the modal is open. */
  lemma QuitIgnoredOnModal(d: Dashboard)
    requires WellFormed(d.accounts) && WellFormed(d.posts) && d.focus.OnModal?
    ensures Input(d, 'q').Next? && Input(d, 'q').dash.running == d.running
  {
    ModalSwallowsKeys(d, 'q');
  }

  /** A fresh item for every stored handle, all unfocused, when every stored handle is valid content. */
  lemma FreshItems(store: seq<string>)
    requires forall k :: 0 <= k < |store| ==> Admissible(store[k])
    ensures Fresh(store).Success?
    ensures Texts(Fresh(store).value) == store
    ensures forall k :: 0 <= k < |store| ==> !Fresh(store).value[k].focus
  {
  }

  /** An alphanumeric handle is valid content. */
  lemma AlnumAdmissible(h: string)
    requires Modals.AllAlnum(h)
    ensures Admissible(h)
  {
    forall i | 0 <= i < |h|
      ensures h[i] != '\n' && h[i] != '\r' && h[i] != Esc
    {
      assert Modals.IsAlnum(h[i]);
    }
    NewAcceptsPlainText(h, Left);
  }

  /** The store after following h: unchanged if h is stored, h appended otherwise. */
  lemma FollowStore(d: Dashboard, h: string)
    requires Admissible(h) && forall k :: 0 <= k < |d.store| ==> Admissible(d.store[k])
    ensures var store := Follow(d, h).dash.store;
      && h in store && store[..|d.store|] == d.store
      && forall k :: 0 <= k < |store| ==> Admissible(store[k])
  {
    var store := Follow(d, h).dash.store;
    forall k | 0 <= k < |store|
      ensures Admissible(store[k])
    {
      if k >= |d.store| {
        assert store[k] == h;
      }
    }
  }

  /**
   * Refreshing only starts spinners: the handles and focus flags stay, the
   * started spinners are those of the fetched handles, and the fetches are
   * the one handle asked for when it is shown and every handle otherwise.
   */
  lemma RefreshStarts(items: seq<Content>, h: string)
    ensures var (spun, fetches) := Refresh(items, h);
      && Texts(spun) == Texts(items)
      && (forall k :: 0 <= k < |items| ==> spun[k].focus == items[k].focus)
      && (forall k :: 0 <= k < |items| ==> (spun[k].spinner == 0 <==> items[k].spinner == 0 || items[k].text in fetches))
      && fetches == (if h != "" && h in Texts(items) then [h] else Texts(items))
  {
    var (spun, fetches) := Refresh(items, h);
    forall k | 0 <= k < |items|
      ensures items[k].text in Texts(items)
    {
      assert Texts(items)[k] == items[k].text;
    }
  }

  /** With every handle valid, following rebuilds the accounts: the old selection is detached from the fresh items. */
  lemma FollowUnfolds(d: Dashboard, h: string)
    requires Admissible(h) && forall k :: 0 <= k < |d.store| ==> Admissible(d.store[k])
    ensures var store := Follow(d, h).dash.store;
      && Fresh(store).Success?
      && var (spun, fetches) := Refresh(Fresh(store).value, h);
      && Follow(d, h).dash.accounts.items == spun && Follow(d, h).fetches == fetches
      && Follow(d, h).dash.accounts.sel == (if d.accounts.sel.NoSelection? then NoSelection else Detached)
  {
    FollowStore(d, h);
  }

  /**
   * Following a valid handle when every stored handle is valid: the accounts
   * show the new store, nothing there is focused or selected, and the fetch of
   * exactly that handle starts (of every handle when it is empty).
   */
  lemma FollowRebuilds(d: Dashboard, h: string)
    requires Admissible(h) && forall k :: 0 <= k < |d.store| ==> Admissible(d.store[k])
    ensures var r := Follow(d, h);
      && Texts(r.dash.accounts.items) == r.dash.store
      && (forall k :: 0 <= k < |r.dash.accounts.items| ==> !r.dash.accounts.items[k].focus)
      && (forall k :: 0 <= k < |r.dash.accounts.items| ==> r.dash.accounts.sel != Selected(k))
      && r.fetches == (if h == "" then r.dash.store else [h])
  {
    FollowStore(d, h);
    FollowUnfolds(d, h);
    var store := Follow(d, h).dash.store;
    FreshItems(store);
    var items := Fresh(store).value;
    RefreshStarts(items, h);
    if h != "" {
      var i :| 0 <= i < |store| && store[i] == h;
      assert Texts(items)[i] == h;
    }
  }

  /**
   * Carriage return on the modal follows the typed handle: the modal closes,
   * the accounts take the focus and show the store with the handle added,
   * nothing is focused there, and the fetch of exactly that handle starts
   * (of every handle when nothing was typed).
   */
  lemma ConfirmFollows(d: Dashboard)
    requires WellFormed(d.accounts) && WellFormed(d.posts) && d.focus.OnModal?
    requires Modals.AllAlnum(d.focus.modal.buffer)
    requires forall k :: 0 <= k < |d.store| ==> Admissible(d.store[k])
    ensures var h := d.focus.modal.buffer;
      var r := Input(d, '\r');
      && r.Next? && r.dash.focus == Accounts && !r.cascade
      && h in r.dash.store && Texts(r.dash.accounts.items) == r.dash.store
      && r.dash.store[..|d.store|] == d.store
      && (forall k :: 0 <= k < |r.dash.accounts.items| ==> !r.dash.accounts.items[k].focus)
      && (forall k :: 0 <= k < |r.dash.accounts.items| ==> r.dash.accounts.sel != Selected(k))
      && r.fetches == (if h == "" then r.dash.store else [h])
  {
    var h := d.focus.modal.buffer;
    AlnumAdmissible(h);
    assert Input(d, '\r') == Follow(d, h);
    FollowStore(d, h);
    FollowRebuilds(d, h);
  }

  /** A panel that has the focus hands every key but `j` and `k` to the key table. */
  lemma PanelKeysFallThrough(d: Dashboard, key: char)
    requires WellFormed(d.accounts) && WellFormed(d.posts) && !d.focus.OnModal?
    requires key != 'j' && key != 'k'
    ensures Input(d, key) == Command(d, key)
  {
  }

  /** Outside the modal, a key that is neither a panel key nor in the table changes nothing and starts nothing. */
  lemma UnknownKeysIgnored(d: Dashboard, key: char)
    requires WellFormed(d.accounts) && WellFormed(d.posts) && !d.focus.OnModal?
    requires key != 'j' && key != 'k' && !IsCommand(key)
    ensures Input(d, key) == Next(d, [], false)
  {
  }

  /** Outside the modal, `q` stops the render loop and changes nothing else. */
  lemma QuitStops(d: Dashboard)
    requires WellFormed(d.accounts) && WellFormed(d.posts) && !d.focus.OnModal?
    ensures Input(d, 'q') == Next(d.(running := false), [], false)
  {
  }

  /** Outside the modal, `d` always crashes: the source indexes the handle list with the selected item. */
  lemma DeleteCrashes(d: Dashboard)
    requires WellFormed(d.accounts) && WellFormed(d.posts) && !d.focus.OnModal?
    ensures Input(d, 'd') == Crash(IndexedByContent)
  {
  }

  /**
   * A focused panel whose selection no longer names an item ignores `j` and
   * `k`: navigation fails, and the table has no entry for either key.
   */
  lemma DetachedIgnoresNavigation(d: Dashboard, key: char)
    requires WellFormed(d.accounts) && WellFormed(d.posts)
    requires d.focus == Accounts && d.accounts.sel.Detached? && |d.accounts.items| > 0
    requires key == 'j' || key == 'k'
    ensures Input(d, key) == Next(d, [], false)
  {
  }

  /** Dropping a selection whose flags agree leaves no item focused. */
  lemma ClearUnfocusesAll(p: Panel)
    requires WellFormed(p) && FocusAgrees(p)
    ensures FocusAgrees(ClearSelection(p))
    ensures forall k :: 0 <= k < |p.items| ==> !ClearSelection(p).items[k].focus
  {
    var r := ClearSelection(p);
    forall k | 0 <= k < |p.items|
      ensures !r.items[k].focus
    {
      if p.sel != Selected(k) {
        assert r.items[k] == p.items[k];
      }
    }
  }

  /**
   * `h`: when the accounts hold items, none of them is selected and the
   * callback is registered, the callback runs with no posts selection and
   * the program ends. Otherwise the accounts take the focus and the posts
   * lose their selection and every focus flag; accounts without a selection
   * (and without a callback) get their first item selected, and any other
   * accounts are untouched.
   */
  lemma FocusLeftSpec(d: Dashboard)
    requires Valid(d) && !d.focus.OnModal?
    ensures var r := Input(d, 'h');
      && (r.Crash? <==> d.accounts.sel.NoSelection? && |d.accounts.items| > 0 && d.accounts.notify)
      && (r.Crash? ==> r.fault == NoPostsSelection)
      && (r.Next? ==>
            && r.fetches == [] && !r.cascade && r.dash.focus == Accounts
            && r.dash.posts.sel == NoSelection && SameButFocus(r.dash.posts.items, d.posts.items)
            && (forall k :: 0 <= k < |r.dash.posts.items| ==> !r.dash.posts.items[k].focus)
            && (d.accounts.sel.NoSelection? && |d.accounts.items| > 0 ==>
                  && r.dash.accounts.sel == Selected(0) && FocusAgrees(r.dash.accounts)
                  && SameButFocus(r.dash.accounts.items, d.accounts.items))
            && (!d.accounts.sel.NoSelection? || |d.accounts.items| == 0 ==> r.dash.accounts == d.accounts)
            && r.dash.(focus := d.focus, posts := d.posts, accounts := d.accounts) == d)
  {
    ClearUnfocusesAll(d.posts);
    if d.accounts.sel.NoSelection? && |d.accounts.items| > 0 && !d.accounts.notify {
      FocusDownMoves(d.accounts);
      MoveKeepsFocusAgreement(d.accounts, FocusDown(d.accounts).value, 0);
    }
  }

  /**
   * `l`: the posts take the focus; when they hold items the first is selected
   * and is the only focused one; the accounts are untouched and no callback
   * runs (the posts have none).
   */
  lemma FocusRightSpec(d: Dashboard)
    requires Valid(d) && !d.focus.OnModal?
    ensures var r := Input(d, 'l');
      && r.Next? && r.fetches == [] && !r.cascade && r.dash.focus == Posts
      && SameButFocus(r.dash.posts.items, d.posts.items) && FocusAgrees(r.dash.posts)
      && (|d.posts.items| > 0 ==> r.dash.posts.sel == Selected(0) && r.dash.posts.items[0].focus)
      && (|d.posts.items| == 0 ==> r.dash.posts.sel == NoSelection)
      && r.dash.(focus := d.focus, posts := d.posts) == d
  {
    ClearUnfocusesAll(d.posts);
    var cleared := ClearSelection(d.posts);
    if |d.posts.items| > 0 {
      FocusDownMoves(cleared);
      MoveKeepsFocusAgreement(cleared, FocusDown(cleared).value, 0);
    }
  }

  /** A navigation key on a focused panel keeps its flags in agreement. */
  lemma NavigationKeepsValid(p: Panel, key: char)
    requires WellFormed(p) && FocusAgrees(p) && (key == 'j' || key == 'k')
    ensures Panels.Input(p, key).Some? ==>
      var q := Panels.Input(p, key).value;
      && WellFormed(q.panel) && FocusAgrees(q.panel) && q.panel.notify == p.notify && q.fired == (p.notify && |p.items| > 0)
  {
    if |p.items| > 0 && !p.sel.Detached? {
      NavigationKeepsOneFocus(p);
      FocusDownMoves(p);
      FocusUpMoves(p);
    }
  }

  /** Rebuilt accounts are valid: nothing is selected and nothing is focused. */
  lemma ReloadKeepsValid(d: Dashboard)
    requires Valid(d)
    ensures Reload(d).Next? ==> Valid(Reload(d).dash)
  {
  }

  /**
   * A launch over a store without repeated handles starts in a valid state,
   * with the render loop on and nothing cached, so the invariant lemmas
   * below speak about states the program reaches.
   */
  lemma LaunchValid(store: seq<string>, footer: seq<Content>)
    requires Unique(store)
    ensures Launch(store, footer).Next? ==>
      && Valid(Launch(store, footer).dash)
      && Launch(store, footer).dash.running && Launch(store, footer).dash.cache == map[]
      && Launch(store, footer).dash.footer == footer
  {
    var d0 := Dashboard(Panel(AccountsTitle, [], NoSelection, true), Panel(PostsTitle, [], NoSelection, false),
                        Accounts, true, map[], store, footer);
    assert Valid(d0);
    ReloadKeepsValid(d0);
  }

  /** Following keeps the state valid: the old selection stops naming items and every fresh item is unfocused. */
  lemma FollowKeepsValid(d: Dashboard, h: string)
    requires Valid(d)
    ensures Valid(Follow(d, h).dash)
  {
    var store := if h in d.store then d.store else d.store + [h];
    assert Unique(store) by {
      if h !in d.store {
        forall i, j | 0 <= i < j < |store|
          ensures store[i] != store[j]
        {
          if j == |d.store| {
            assert store[i] == d.store[i];
          }
        }
      }
    }
  }

  /** Every key keeps the dashboard valid. */
  lemma InputKeepsValid(d: Dashboard, key: char)
    requires Valid(d)
    ensures Input(d, key).Next? ==> Valid(Input(d, key).dash)
  {
    if d.focus.OnModal? {
      Modals.InputKeepsAlnum(d.focus.modal, key);
      var step := Modals.Input(d.focus.modal, key);
      if step.confirmed.Some? {
        FollowKeepsValid(d, step.confirmed.value);
      }
    } else if key == 'j' || key == 'k' {
      var p := if d.focus == Accounts then d.accounts else d.posts;
      NavigationKeepsValid(p, key);
    } else if key == 'h' {
      FocusLeftSpec(d);
    } else if key == 'l' {
      FocusRightSpec(d);
    } else if key == 'r' {
      ReloadKeepsValid(d);
    }
  }

  /** A reversal lists the elements last first. */
  lemma {:induction false} ReverseIndex<T>(s: seq<T>)
    ensures forall k :: 0 <= k < |s| ==> Reverse(s)[k] == s[|s| - 1 - k]
    decreases |s|
  {
    if |s| > 0 {
      ReverseIndex(s[1..]);
    }
  }

  /**
   * A completed fetch caches the posts newest first (the fetch returns them
   * oldest first) and stops that handle's spinner, and keeps the state valid.
   */
  lemma LoadCompleteCaches(d: Dashboard, h: string, fetched: seq<Post>)
    requires Valid(d)
    ensures var r := LoadComplete(d, h, fetched);
      && |r.cache[h]| == |fetched|
      && (forall k :: 0 <= k < |fetched| ==> r.cache[h][k] == fetched[|fetched| - 1 - k])
      && (forall k :: 0 <= k < |r.accounts.items| && r.accounts.items[k].text == h ==> r.accounts.items[k].spinner == -1)
      && Valid(r)
  {
    ReverseIndex(fetched);
  }

  /**
   * Following a handle starts its spinner and its fetch, and completing that
   * fetch caches its posts and stops the spinner again.
   */
  lemma FollowThenLoad(d: Dashboard, h: string, fetched: seq<Post>)
    requires h != "" && Admissible(h) && forall k :: 0 <= k < |d.store| ==> Admissible(d.store[k])
    ensures Follow(d, h).fetches == [h]
    ensures exists k :: (0 <= k < |Follow(d, h).dash.accounts.items|
      && Follow(d, h).dash.accounts.items[k].text == h && Follow(d, h).dash.accounts.items[k].spinner == 0
      && LoadComplete(Follow(d, h).dash, h, fetched).accounts.items[k].spinner == -1)
    ensures LoadComplete(Follow(d, h).dash, h, fetched).cache[h] == Reverse(fetched)
  {
    FollowRebuilds(d, h);
    FollowUnfolds(d, h);
    var r := Follow(d, h);
    var store := r.dash.store;
    var items := Fresh(store).value;
    RefreshStarts(items, h);
    var i :| 0 <= i < |store| && store[i] == h;
    assert Texts(r.dash.accounts.items)[i] == h;
    assert r.dash.accounts.items[i].spinner == 0;
  }
}
