/** What every dispatch and every message from a client does to each client and each waiting store. */
module DispatchTheorems {
  import opened RegistryTheorems
  import opened StoreCodes
  import opened StoreRegistry

  // ---- dispatches ------------------------------------------------------------------------------

  /** Client i is the one, or one of those, that a dispatch is for: with type 1 the first of its name. */
  predicate Gets(clients: seq<Client>, i: nat, kind: string, code: string)
    requires i < |clients|
  {
    || kind == "3"
    || (kind == "2" && clients[i].id in Codes(code))
    || (kind == "1" && SameName(clients[i].id, code) && forall j :: 0 <= j < i ==> !SameName(clients[j].id, code))
  }

  /** Equal up to the first NUL of each. */
  predicate SameName(a: string, b: string) {
    exists n: nat :: n <= |a| && n <= |b| && a[..n] == b[..n] && '\0' !in a[..n]
                     && (n < |a| ==> a[n] == '\0') && (n < |b| ==> b[n] == '\0')
  }

  predicate Waits(store: string, kind: string, code: string) {
    kind == "3" || (kind == "2" && store in Codes(code)) || (kind == "1" && store == code)
  }

  /** The numbers of those of the first n waiting stores that a dispatch is for, in order. */
  function Numbers(stores: seq<string>, n: nat, kind: string, code: string): (which: seq<nat>)
    requires n <= |stores|
    ensures forall k :: 0 <= k < |which| ==> which[k] < n && Waits(stores[which[k]], kind, code)
    ensures forall k, l :: 0 <= k < l < |which| ==> which[k] < which[l]
    ensures forall i :: 0 <= i < n && Waits(stores[i], kind, code) ==> i in which
  {
    if n == 0 then []
    else Numbers(stores, n - 1, kind, code) + if Waits(stores[n - 1], kind, code) then [n - 1] else []
  }

  function RetriesFor(stores: seq<string>, which: seq<nat>, data: string): seq<Push>
    requires forall k :: 0 <= k < |which| ==> which[k] < |stores|
  {
    seq(|which|, k requires 0 <= k < |which| => Push(stores[which[k]], data))
  }

  lemma NamesCompared(a: string, b: string)
    ensures SameName(a, b) <==> CString(a) == CString(b)
  {
    if CString(a) == CString(b) {
      assert a[..NulAt(a)] == b[..NulAt(b)] && NulAt(a) == NulAt(b);
    } else if SameName(a, b) {
      var n: nat :| n <= |a| && n <= |b| && a[..n] == b[..n] && '\0' !in a[..n]
                    && (n < |a| ==> a[n] == '\0') && (n < |b| ==> b[n] == '\0');
      NulIsAt(a, n);
      NulIsAt(b, n);
    }
  }

  lemma NulIsAt(s: string, n: nat)
    requires n <= |s| && '\0' !in s[..n] && (n < |s| ==> s[n] == '\0')
    ensures NulAt(s) == n
  {
  }

  /** What a dispatch of any type does to each client, whatever the registry. */
  lemma DispatchToClients(r: Registry, m: Message, kind: string, code: string, i: nat)
    requires i < |r.clients|
    ensures var r' := Dispatch(r, m, kind, code);
            && |r'.clients| == |r.clients|
            && r'.clients[i] == (if Gets(r.clients, i, kind, code)
                                 then Client(r.clients[i].id, r.clients[i].heartbeat, r.clients[i].sent + [m])
                                 else r.clients[i])
  {
    hide Codes, CString, SameName;
    if kind == "1" {
      forall j: nat | j < |r.clients|
        ensures SameName(r.clients[j].id, code) <==> CString(r.clients[j].id) == CString(code)
      {
        NamesCompared(r.clients[j].id, code);
      }
    }
  }

  lemma OneMore(stores: seq<string>, n: nat, kind: string, code: string, data: string)
    requires 0 < n <= |stores|
    ensures RetriesFor(stores, Numbers(stores, n, kind, code), data)
         == RetriesFor(stores, Numbers(stores, n - 1, kind, code), data)
            + if Waits(stores[n - 1], kind, code) then [Push(stores[n - 1], data)] else []
  {
    hide Waits;
  }

  lemma {:induction false} PushedInOrder(stores: seq<string>, n: nat, to: Address, data: string,
      kind: string, code: string)
    requires n <= |stores| && forall s :: to.Accepts(s) <==> Waits(s, kind, code)
    ensures PushWhere(stores[..n], to, data) == RetriesFor(stores, Numbers(stores, n, kind, code), data)
  {
    hide Waits, Address.Accepts, Numbers, RetriesFor;
    if n > 0 {
      PushedInOrder(stores, n - 1, to, data, kind, code);
      OneMore(stores, n, kind, code, data);
      assert stores[..n][..n - 1] == stores[..n - 1];
    } else {
      NothingFor(stores, kind, code, data);
    }
  }

  lemma NothingFor(stores: seq<string>, kind: string, code: string, data: string)
    ensures RetriesFor(stores, Numbers(stores, 0, kind, code), data) == []
  {
  }

  /** What a dispatch hands to the queue of retries: one for every waiting store it is for, in the order of their
      waiting, and nothing else changes. */
  lemma DispatchToWaiting(r: Registry, m: Message, kind: string, code: string)
    requires forall i, j :: 0 <= i < j < |r.disconnected| ==> r.disconnected[i] != r.disconnected[j]
    ensures var r' := Dispatch(r, m, kind, code);
            && r'.disconnected == r.disconnected
            && r'.pushed == r.pushed + RetriesFor(r.disconnected,
                                                  Numbers(r.disconnected, |r.disconnected|, kind, code), m.data)
  {
    hide Codes, FirstWith;
    var n := |r.disconnected|;
    assert r.disconnected[..n] == r.disconnected;
    if kind == "1" {
      OnlyOne(r.disconnected, n, code, m.data);
    } else if kind == "2" {
      PushedInOrder(r.disconnected, n, Listed(Codes(code)), m.data, kind, code);
    } else if kind == "3" {
      PushedInOrder(r.disconnected, n, Everyone, m.data, kind, code);
    } else {
      NobodyWaits(r.disconnected, n, kind, code);
    }
  }

  lemma NotWaiting(store: string, kind: string, code: string)
    requires kind != "1" && kind != "2" && kind != "3"
    ensures !Waits(store, kind, code)
  {
  }

  lemma NobodyWaits(stores: seq<string>, n: nat, kind: string, code: string)
    requires n <= |stores| && kind != "1" && kind != "2" && kind != "3"
    ensures Numbers(stores, n, kind, code) == []
  {
    hide Waits, Numbers;
    var which := Numbers(stores, n, kind, code);
    if which != [] {
      NotWaiting(stores[which[0]], kind, code);
    }
  }

  lemma OneWaits(store: string, code: string)
    ensures Waits(store, "1", code) <==> store == code
  {
  }

  lemma {:induction false} OnlyOne(stores: seq<string>, n: nat, code: string, data: string)
    requires n <= |stores| && forall i, j :: 0 <= i < j < |stores| ==> stores[i] != stores[j]
    ensures RetriesFor(stores, Numbers(stores, n, "1", code), data)
         == if code in stores[..n] then [Push(code, data)] else []
  {
    hide Waits, Numbers, RetriesFor;
    if n > 0 {
      OneWaits(stores[n - 1], code);
      OnlyOne(stores, n - 1, code, data);
      OneMore(stores, n, "1", code, data);
      assert stores[..n] == stores[..n - 1] + [stores[n - 1]];
    } else {
      NothingFor(stores, "1", code, data);
    }
  }

  // ---- messages from clients --------------------------------------------------------------------

  /** A client is refused when it takes an empty name or one that a client has, and when it sends no row data. */
  predicate Refused(clients: seq<Client>, code: int, text: string) {
    (code == 101 && (text == "" || exists c <- clients :: c.id == text)) || (code == 102 && text == "")
  }

  /** What a message changes: nothing when it is refused; otherwise only the client's name, when it takes one, and
      the time it was heard of, when it takes one or sends a heartbeat. Its store waits no longer. */
  lemma MessageChanges(r: Registry, i: nat, code: int, text: string, now: int)
    requires i < |r.clients|
    ensures var (r', ok) := Receive(r, i, code, text, now);
            var c := r.clients[i];
            && (ok <==> !Refused(r.clients, code, text))
            && (!ok ==> r' == r)
            && r'.pushed == r.pushed && |r'.clients| == |r.clients|
            && (forall j :: 0 <= j < |r.clients| && j != i ==> r'.clients[j] == r.clients[j])
            && r'.clients[i].sent == c.sent
            && r'.clients[i].id == (if ok && code == 101 then text else c.id)
            && r'.clients[i].heartbeat == (if ok && (code == 101 || code == 104) then now else c.heartbeat)
            && (!ok || code != 101 || text !in r.disconnected ==> r'.disconnected == r.disconnected)
            && (ok && code == 101 ==> forall before, after |
                  r.disconnected == before + [text] + after && text !in before :: r'.disconnected == before + after)
  {
    if HasId(r.clients, text) {
      var j: nat :| j < |r.clients| && r.clients[j].id == text;
      assert r.clients[j] in r.clients;
    }
    if text !in r.disconnected {
      RemoveAbsent(r.disconnected, text);
    }
    forall before, after | r.disconnected == before + [text] + after && text !in before
      ensures RemoveFirst(r.disconnected, text) == before + after
    {
      RemovePlaced(before, text, after);
    }
  }

  lemma RemoveStep(stores: seq<string>, s: string)
    requires stores != []
    ensures RemoveFirst(stores, s)
         == if stores[0] == s then stores[1..] else [stores[0]] + RemoveFirst(stores[1..], s)
  {
  }

  lemma {:induction false} RemovePlaced(before: seq<string>, s: string, after: seq<string>)
    requires s !in before
    ensures RemoveFirst(before + [s] + after, s) == before + after
  {
    hide RemoveFirst;
    var stores := before + [s] + after;
    RemoveStep(stores, s);
    if before != [] {
      RemovePlaced(before[1..], s, after);
      assert stores[0] == before[0] && stores[1..] == before[1..] + [s] + after;
      assert before + after == [before[0]] + (before[1..] + after);
    } else {
      assert stores[0] == s && stores[1..] == after == before + after;
    }
  }
}
