/** Whole key sequences on a freshly launched dashboard. */
module Scenarios {
  import opened Wrappers
  import opened Contents
  import Panels
  import opened Controller
  import Modals

  /**
   * Two stored accounts: launching fetches both; `j` selects the first and
   * runs the accounts callback, a second `j` moves to the second, and a third
   * wraps back to the first.
   */
  lemma BrowseAccounts(store: seq<string>)
    requires store == ["alice", "bob"]
    ensures Launch(store, []).Next? && Launch(store, []).fetches == store
    ensures var d0 := Launch(store, []).dash;
      var r1 := Input(d0, 'j');
      && r1.Next? && r1.cascade && r1.dash.accounts.sel == Panels.Selected(0)
      && var r2 := Input(r1.dash, 'j');
      && r2.Next? && r2.cascade && r2.dash.accounts.sel == Panels.Selected(1)
      && var r3 := Input(r2.dash, 'j');
      && r3.Next? && r3.cascade && r3.dash.accounts.sel == Panels.Selected(0)
      && r3.dash.accounts.items[0].focus && !r3.dash.accounts.items[1].focus
  {
    AlnumAdmissibleFor("alice");
    AlnumAdmissibleFor("bob");
    var d0 := Launch(store, []).dash;
    assert d0.accounts.sel == Panels.NoSelection && |d0.accounts.items| == 2 && d0.accounts.notify;
    assert Panels.FocusAgrees(d0.accounts);
    var p1 := Input(d0, 'j').dash.accounts;
    Panels.FocusDownMoves(d0.accounts);
    Panels.MoveKeepsFocusAgreement(d0.accounts, Panels.FocusDown(d0.accounts).value, 0);
    var p2 := Input(Input(d0, 'j').dash, 'j').dash.accounts;
    Panels.FocusDownMoves(p1);
    Panels.ModStep(0, 2);
    Panels.MoveKeepsFocusAgreement(p1, Panels.FocusDown(p1).value, 1);
    Panels.FocusDownMoves(p2);
    Panels.ModStep(1, 2);
    Panels.MoveKeepsFocusAgreement(p2, Panels.FocusDown(p2).value, 0);
  }

  /**
   * One stored account: pressing `h` right after launch ends the program,
   * because the accounts callback runs while the posts have no selection.
   */
  lemma LeftAfterLaunchCrashes(store: seq<string>)
    requires store == ["alice"]
    ensures Launch(store, []).Next?
    ensures Input(Launch(store, []).dash, 'h') == Crash(NoPostsSelection)
  {
    AlnumAdmissibleFor("alice");
  }

  lemma AlnumAdmissibleFor(h: string)
    requires h == "alice" || h == "bob"
    ensures Admissible(h)
  {
    assert Modals.AllAlnum(h);
    AlnumAdmissible(h);
  }

  /**
   * `f`, then `b`, `o`, `q`, `b` and carriage return: the modal opens and
   * takes every one of the letters (`q` included, so it does not quit), and
   * confirming stores "boqb", returns the focus to the accounts and fetches
   * only "boqb".
   */
  lemma FollowByKeys(d0: Dashboard)
    requires Valid(d0) && d0.focus == Accounts && d0.running
    requires d0.store == ["alice"] && Admissible("alice")
    ensures var r := Input(d0, 'f');
      && r.Next? && r.dash.focus.OnModal? && r.dash.focus.modal.buffer == ""
      && var d1 := Input(Input(Input(Input(r.dash, 'b').dash, 'o').dash, 'q').dash, 'b').dash;
      && d1.focus.OnModal? && d1.focus.modal.buffer == "boqb" && d1.running
      && var e := Input(d1, '\r');
      && e.Next? && e.dash.focus == Accounts && e.dash.store == ["alice", "boqb"] && e.fetches == ["boqb"]
  {
    var r := Input(d0, 'f');
    assert r.dash.focus == OnModal(Modals.Open(FollowTitle, FollowWidth, FollowHeight));
    var a := Input(r.dash, 'b').dash;
    ModalSwallowsKeys(r.dash, 'b');
    var b := Input(a, 'o').dash;
    ModalSwallowsKeys(a, 'o');
    var c := Input(b, 'q').dash;
    ModalSwallowsKeys(b, 'q');
    var d1 := Input(c, 'b').dash;
    ModalSwallowsKeys(c, 'b');
    assert d1.focus.modal.buffer == "boqb";
    assert d1.store == ["alice"];
    assert Modals.AllAlnum("boqb");
    ConfirmFollows(d1);
    assert "boqb" !in d1.store;
  }
}
