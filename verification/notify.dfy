/** The notification fan-out: one push message per detected change, addressed
    to the short id of its destination. */
module Notify {
  import opened Text
  import opened Snapshot
  import opened ChangeDetection

  datatype Option<T> = None | Some(value: T)

  /** What the push transport receives: the destination short id, a title and
      a body. */
  datatype Notification = Notification(shortId: string, title: string, body: string)

  /** The first piece of `str.split('-')`: `s` up to, not including, its
      first dash, or all of `s` when it has none. */
  function BeforeFirstDash(s: string): (r: string)
    ensures r <= s
    ensures '-' !in r
    ensures |r| == |s| || s[|r|] == '-'
  {
    if s == [] || s[0] == '-' then [] else [s[0]] + BeforeFirstDash(s[1..])
  }

  /** The subscription key of a destination: the part before its first dash,
      stripped. It has no dash and no surrounding whitespace. */
  function ShortId(destino: string): (id: string)
    ensures '-' !in id
    ensures IsStripped(id)
  {
    var prefix := BeforeFirstDash(destino);
    assert destino[..|prefix|] == prefix;
    var id := Strip(prefix);
    assert forall c :: c in id ==> c in prefix;
    id
  }

  /** A destination without a dash gives itself, stripped, as short id; a
      cleaned one gives itself unchanged. */
  lemma ShortIdWithoutDash(destino: string)
    requires '-' !in destino
    ensures ShortId(destino) == Strip(destino)
    ensures IsStripped(destino) ==> ShortId(destino) == destino
  {
    assert BeforeFirstDash(destino) == destino;
    if IsStripped(destino) {
      StripStripped(destino);
    }
  }

  /** A destination written "code-anything", the code without a dash, has
      the stripped code as short id. With ShortIdWithoutDash this covers every
      destination. */
  lemma ShortIdWithDash(code: string, rest: string)
    requires '-' !in code
    ensures ShortId(code + "-" + rest) == Strip(code)
  {
    BeforeFirstDashOf(code, rest);
  }

  lemma {:induction false} BeforeFirstDashOf(code: string, rest: string)
    requires '-' !in code
    ensures BeforeFirstDash(code + "-" + rest) == code
  {
    if code != [] {
      assert (code + "-" + rest)[1..] == code[1..] + "-" + rest;
      BeforeFirstDashOf(code[1..], rest);
    }
  }

  const TitlePrefix: string := "Actualización en Destino: "

  /** Title of the message for a change at `destino` (the full cleaned
      destination, not its short id). */
  function Title(destino: string): string {
    TitlePrefix + destino
  }

  /** Reads the destination back out of a title. */
  function TitleDestination(title: string): Option<string> {
    if TitlePrefix <= title then Some(title[|TitlePrefix|..]) else None
  }

  /** The destination can be recovered from every title. */
  lemma TitleRoundTrip(destino: string)
    ensures TitleDestination(Title(destino)) == Some(destino)
  {
    assert Title(destino)[|TitlePrefix|..] == destino;
  }

  const BodyHead: string := "Estado cambió de '"
  const BodyMiddle: string := "' a '"
  const BodyTail: string := "'"

  /** Body of the message: the old and the new status, each quoted. */
  function Body(before: string, after: string): string {
    BodyHead + before + BodyMiddle + after + BodyTail
  }

  /** When the old statuses contain no quote, the body names both statuses
      unambiguously: different status pairs give different bodies. */
  lemma BodyDeterminesStatuses(b1: string, a1: string, b2: string, a2: string)
    requires '\'' !in b1 && '\'' !in b2
    requires Body(b1, a1) == Body(b2, a2)
    ensures b1 == b2 && a1 == a2
  {
    var s1, s2 := Body(b1, a1), Body(b2, a2);
    var h := |BodyHead|;
    assert s1[h + |b1|] == '\'';
    assert s2[h + |b2|] == '\'';
    assert forall k :: 0 <= k < |b1| ==> s1[h + k] == b1[k];
    assert forall k :: 0 <= k < |b2| ==> s2[h + k] == b2[k];
    assert s1[h + |b2|] == '\'' && s2[h + |b1|] == '\'';
    assert |b1| == |b2|;
    assert b1 == s1[h..h + |b1|] && b2 == s2[h..h + |b2|];
    var m := h + |b1| + |BodyMiddle|;
    assert a1 == s1[m..|s1| - 1] && a2 == s2[m..|s2| - 1];
  }

  /** The message sent for one change. */
  function NotificationFor(c: Pair): Notification {
    Notification(ShortId(c.before.destino), Title(c.before.destino), Body(c.before.estado, c.after.estado))
  }

  /** The messages for a list of changes, one each, in the same order. */
  function NotificationsFor(changes: seq<Pair>): (ns: seq<Notification>)
    ensures |ns| == |changes|
  {
    if changes == [] then []
    else NotificationsFor(changes[..|changes| - 1]) + [NotificationFor(changes[|changes| - 1])]
  }

  /** Position `i` of the messages is the message for change `i`. */
  lemma {:induction false} NotificationsForAt(changes: seq<Pair>, i: nat)
    requires i < |changes|
    ensures NotificationsFor(changes)[i] == NotificationFor(changes[i])
  {
    var front := changes[..|changes| - 1];
    if i < |changes| - 1 {
      NotificationsForAt(front, i);
    }
  }

  /** The messages for one more change extend those for the changes before
      it by its own message. */
  lemma NotificationsForPrefix(changes: seq<Pair>, i: nat)
    requires i < |changes|
    ensures NotificationsFor(changes[..i + 1]) == NotificationsFor(changes[..i]) + [NotificationFor(changes[i])]
  {
    assert changes[..i + 1][..i] == changes[..i];
  }

  /** Everything one run of the detector sends: nothing when a required
      column is missing (the error is only reported), otherwise one message
      per deduplicated change. */
  function Dispatched(d: Detection): (sent: seq<Notification>)
    ensures d.MissingColumns? ==> sent == []
    ensures d.Detected? ==> |sent| == |d.changes|
  {
    match d
    case MissingColumns(_) => []
    case Detected(changes) => NotificationsFor(changes)
  }

  /** The i-th message goes to the short id of the i-th change's
      destination, names that destination in its title and both statuses in
      its body. */
  lemma NotificationsMatchChanges(changes: seq<Pair>)
    ensures |NotificationsFor(changes)| == |changes|
    ensures forall i :: 0 <= i < |changes| ==>
      && NotificationsFor(changes)[i].shortId == ShortId(changes[i].before.destino)
      && TitleDestination(NotificationsFor(changes)[i].title) == Some(changes[i].before.destino)
      && NotificationsFor(changes)[i].body == Body(changes[i].before.estado, changes[i].after.estado)
  {
    forall i | 0 <= i < |changes|
      ensures TitleDestination(NotificationsFor(changes)[i].title) == Some(changes[i].before.destino)
      ensures NotificationsFor(changes)[i] == NotificationFor(changes[i])
    {
      NotificationsForAt(changes, i);
      TitleRoundTrip(changes[i].before.destino);
    }
  }

  /** One message per deduplicated change, in change order; every message is
      about a real status change; no two messages are about the same key;
      and nothing is sent exactly when no change was found. */
  lemma OneNotificationPerChange(oldT: Table, newT: Table, foldDate: string -> string)
    ensures var d := DetectChanges(oldT, newT, foldDate);
      var sent := Dispatched(d);
      && (sent == [] <==> d.MissingColumns? || d.changes == [])
      && (d.Detected? ==>
            && |sent| == |d.changes|
            && (forall i :: 0 <= i < |sent| ==> d.changes[i].before.estado != d.changes[i].after.estado)
            && (forall i, j :: 0 <= i < j < |sent| ==> PairKey(d.changes[i]) != PairKey(d.changes[j])))
  {
    var d := DetectChanges(oldT, newT, foldDate);
    DetectChangesSound(oldT, newT, foldDate);
    if d.Detected? {
      forall i | 0 <= i < |d.changes|
        ensures d.changes[i].before.estado != d.changes[i].after.estado
      {
        assert d.changes[i] in d.changes;
      }
    }
  }

  /** Comparing a table with unique keys to an identical table sends nothing. */
  lemma NothingSentForUnchangedTable(t: Table, foldDate: string -> string)
    requires UniqueKeys(CleanTable(t, foldDate).rows)
    ensures Dispatched(DetectChanges(t, t, foldDate)) == []
  {
    NoChangesAgainstItself(t, foldDate);
  }

  /** The push side of the detector. `outbox` is what the push transport has
      been handed so far, in order. */
  class Notifier {
    var outbox: seq<Notification>

    constructor ()
      ensures outbox == []
    {
      outbox := [];
    }

    /** `enviar_notificacion_por_destino`: hands one message to the transport. */
    method Send(shortId: string, title: string, body: string)
      modifies this
      ensures outbox == old(outbox) + [Notification(shortId, title, body)]
    {
      outbox := outbox + [Notification(shortId, title, body)];
    }

    /** One iteration's message: the short id of the destination, the title
        naming it and the body naming both statuses. */
    static method Compose(change: Pair) returns (shortId: string, title: string, body: string)
      ensures Notification(shortId, title, body) == NotificationFor(change)
    {
      var destino := change.before.destino;
      shortId := ShortId(destino);
      title := Title(destino);
      body := Body(change.before.estado, change.after.estado);
    }

    /** The loop over the detected changes: for each one, in order, derive
        the short id, build the title and body, and send them. */
    method NotifyEach(changes: seq<Pair>)
      modifies this
      ensures outbox == old(outbox) + NotificationsFor(changes)
    {
      var i := 0;
      while i < |changes|
        invariant 0 <= i <= |changes|
        invariant outbox == old(outbox) + NotificationsFor(changes[..i])
      {
        var shortId, title, body := Compose(changes[i]);
        Send(shortId, title, body);
        assert outbox == old(outbox) + NotificationsFor(changes[..i + 1]) by {
          NotificationsForPrefix(changes, i);
        }
        i := i + 1;
      }
      assert changes[..|changes|] == changes;
    }

    /** `check_and_notify_on_change`: detects the status changes between the
        two tables and sends one message per change, in order. */
    method CheckAndNotifyOnChange(oldT: Table, newT: Table, foldDate: string -> string)
      modifies this
      ensures outbox == old(outbox) + Dispatched(DetectChanges(oldT, newT, foldDate))
    {
      var detection := DetectChanges(oldT, newT, foldDate);
      match detection
      case MissingColumns(_) =>
        // the merge or the status comparison raises; the handler only reports it
      case Detected(changes) =>
        if changes != [] {
          NotifyEach(changes);
        }
    }
  }
}
