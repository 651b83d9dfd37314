/** The Rapid recon portal's client side: the event filter of the data
    service, the map controller's active-event selection and filter reset,
    and the admin controller's user search. Dates are millisecond
    timestamps; events are JavaScript objects, compared by identity. */
module Rapid {
  import opened Common

  /** An event object; `ref` stands for its object identity. */
  datatype Event = Event(ref: nat, title: string, eventType: string, eventDate: int)

  datatype EventType = EventType(name: string)

  /** The controller's `filter_options`; an absent key is `None`. */
  datatype FilterOptions = FilterOptions(
    eventType: Option<EventType>,
    searchText: Option<string>,
    startDate: Option<int>,
    endDate: Option<int>)

  /** `{}`. */
  function EmptyOptions(): FilterOptions
  {
    FilterOptions(None, None, None, None)
  }

  /** `t` occurs in `s` at position `i`. */
  predicate OccursAt(s: string, t: string, i: int)
  {
    0 <= i && i + |t| <= |s| && s[i..i + |t|] == t
  }

  /** `s.indexOf(t)`: the first position where `t` occurs in `s`, or -1. */
  function IndexOf(s: string, t: string): (r: int)
    ensures -1 <= r <= |s|
    ensures r == -1 <==> forall i :: 0 <= i <= |s| ==> !OccursAt(s, t, i)
    ensures r != -1 ==> OccursAt(s, t, r) && forall i :: 0 <= i < r ==> !OccursAt(s, t, i)
    decreases |s|
  {
    if |t| <= |s| && s[..|t|] == t then
      assert s[0..|t|] == s[..|t|];
      assert OccursAt(s, t, 0);
      0
    else if s == [] then -1
    else
      var k := IndexOf(s[1..], t);
      assert !OccursAt(s, t, 0) by {
        if |t| <= |s| { assert s[0..|t|] == s[..|t|]; }
      }
      assert forall i :: 1 <= i <= |s| ==> (OccursAt(s, t, i) <==> OccursAt(s[1..], t, i - 1)) by {
        forall i | 1 <= i <= |s| ensures OccursAt(s, t, i) <==> OccursAt(s[1..], t, i - 1) {
          if i + |t| <= |s| {
            assert s[i..i + |t|] == s[1..][i - 1..i - 1 + |t|];
          }
        }
      }
      if k == -1 then
        assert forall i :: 1 <= i <= |s| ==> !OccursAt(s, t, i) by {
          forall i | 1 <= i <= |s| ensures !OccursAt(s, t, i) {
            assert !OccursAt(s[1..], t, i - 1);
          }
        }
        -1
      else
        assert OccursAt(s[1..], t, k);
        assert OccursAt(s, t, k + 1);
        assert forall i :: 1 <= i < k + 1 ==> !OccursAt(s, t, i) by {
          forall i | 1 <= i < k + 1 ensures !OccursAt(s, t, i) {
            assert !OccursAt(s[1..], t, i - 1);
          }
        }
        k + 1
  }

  /** `t` occurs somewhere in `s`. */
  ghost predicate Contains(s: string, t: string)
  {
    exists i :: 0 <= i <= |s| && OccursAt(s, t, i)
  }

  /** `indexOf` finds something exactly when the text occurs. */
  lemma IndexOfFinds(s: string, t: string)
    ensures IndexOf(s, t) != -1 <==> Contains(s, t)
  {
    if IndexOf(s, t) != -1 {
      assert OccursAt(s, t, IndexOf(s, t));
    }
  }

  /** The empty text occurs at the start of every title. */
  lemma IndexOfEmpty(s: string)
    ensures IndexOf(s, "") == 0
  {
  }

  /** `item` passes every filter that is set; a filter whose value is
      falsy (no key, or the empty text) does not constrain. */
  predicate Keep(opts: FilterOptions, item: Event)
  {
    (opts.eventType.Some? ==> item.eventType == opts.eventType.value.name) &&
    (opts.searchText.Some? && opts.searchText.value != [] ==>
       IndexOf(Lower(item.title), Lower(opts.searchText.value)) != -1) &&
    (opts.startDate.Some? ==> item.eventDate > opts.startDate.value) &&
    (opts.endDate.Some? ==> item.eventDate < opts.endDate.value)
  }

  /** `RapidDataService.search(events, filter_options)`: the events that
      pass, in their order. */
  function SearchEvents(events: seq<Event>, opts: FilterOptions): (r: seq<Event>)
    ensures |r| <= |events|
    ensures IsSubsequence(r, events)
    ensures forall k :: 0 <= k < |r| ==> r[k] in events && Keep(opts, r[k])
    ensures forall k :: 0 <= k < |events| && Keep(opts, events[k]) ==> events[k] in r
  {
    Filter(events, (e: Event) => Keep(opts, e))
  }

  /** An event is kept exactly when its type, title and date match every
      filter that is set. */
  lemma SearchKeeps(events: seq<Event>, opts: FilterOptions, e: Event)
    requires e in events
    ensures e in SearchEvents(events, opts) <==>
      (opts.eventType.Some? ==> e.eventType == opts.eventType.value.name) &&
      (opts.searchText.Some? && opts.searchText.value != [] ==>
         Contains(Lower(e.title), Lower(opts.searchText.value))) &&
      (opts.startDate.Some? ==> opts.startDate.value < e.eventDate) &&
      (opts.endDate.Some? ==> e.eventDate < opts.endDate.value)
  {
    if opts.searchText.Some? {
      IndexOfFinds(Lower(e.title), Lower(opts.searchText.value));
    }
    SearchMember(events, opts, e);
  }

  lemma SearchMember(events: seq<Event>, opts: FilterOptions, e: Event)
    requires e in events
    ensures e in SearchEvents(events, opts) <==> Keep(opts, e)
  {
    var r := SearchEvents(events, opts);
    var k :| 0 <= k < |events| && events[k] == e;
    if e in r {
      var m :| 0 <= m < |r| && r[m] == e;
    }
  }

  /** With no filter set, every event is kept, in order. */
  lemma SearchWithoutFilters(events: seq<Event>)
    ensures SearchEvents(events, EmptyOptions()) == events
  {
    FilterAll(events, (e: Event) => Keep(EmptyOptions(), e));
  }

  /** The map page's controller. */
  class RapidMainCtrl {
    var showSidebar: bool
    var filterOptions: FilterOptions
    var activeEvent: Option<Event>
    var events: seq<Event>                      // [] until the events arrive
    var filteredEvents: Option<seq<Event>>      // unset until the first search

    constructor()
      ensures showSidebar && filterOptions == EmptyOptions() && activeEvent.None?
      ensures events == [] && filteredEvents.None?
    {
      showSidebar := true;
      filterOptions := EmptyOptions();
      activeEvent := None;
      events := [];
      filteredEvents := None;
    }

    /** The events response: stored; one marker per event is placed. */
    method ReceiveEvents(resp: seq<Event>)
      modifies this
      ensures events == resp
      ensures showSidebar == old(showSidebar) && filterOptions == old(filterOptions)
      ensures activeEvent == old(activeEvent) && filteredEvents == old(filteredEvents)
    {
      events := resp;
    }

    /** A click on the marker of `ev`: the active event is deselected,
        any other becomes active and opens the sidebar. */
    method MarkerClick(ev: Event)
      modifies this
      ensures old(activeEvent).Some? && old(activeEvent).value.ref == ev.ref ==>
        activeEvent.None? && showSidebar == old(showSidebar)
      ensures !(old(activeEvent).Some? && old(activeEvent).value.ref == ev.ref) ==>
        activeEvent == Some(ev) && showSidebar
      ensures filterOptions == old(filterOptions) && events == old(events) && filteredEvents == old(filteredEvents)
    {
      if activeEvent.Some? && activeEvent.value.ref == ev.ref {
        activeEvent := None;
      } else {
        activeEvent := Some(ev);
        showSidebar := true;
      }
    }

    /** `select_event(ev)`: `ev` becomes active (the map recentres). */
    method SelectEvent(ev: Event)
      modifies this
      ensures activeEvent == Some(ev)
      ensures showSidebar == old(showSidebar) && filterOptions == old(filterOptions)
      ensures events == old(events) && filteredEvents == old(filteredEvents)
    {
      activeEvent := Some(ev);
    }

    /** `search()`: the filtered events recomputed from the options. */
    method Search()
      modifies this
      ensures filteredEvents == Some(SearchEvents(events, filterOptions))
      ensures showSidebar == old(showSidebar) && filterOptions == old(filterOptions)
      ensures activeEvent == old(activeEvent) && events == old(events)
    {
      filteredEvents := Some(SearchEvents(events, filterOptions));
    }

    /** `clear_filters()`: the options emptied, so every event is shown. */
    method ClearFilters()
      modifies this
      ensures filterOptions == EmptyOptions()
      ensures filteredEvents == Some(events)
      ensures showSidebar == old(showSidebar) && activeEvent == old(activeEvent) && events == old(events)
    {
      filterOptions := EmptyOptions();
      Search();
      SearchWithoutFilters(events);
    }
  }

  /** A request made to the user service. */
  datatype UserQuery = UserQuery(q: string, role: Option<string>)

  /** The admin page's controller; `requests` logs the searches issued to
      the user service, whose answers arrive through the two receive
      methods. */
  class RapidAdminUsersCtrl {
    var adminUsers: Option<seq<string>>
    var foundUsers: Option<seq<string>>
    var requests: seq<UserQuery>

    /** Building the controller lists the current admins. */
    constructor()
      ensures requests == [UserQuery("", Some("Rapid Admin"))]
      ensures adminUsers.None? && foundUsers.None?
    {
      adminUsers := None;
      foundUsers := None;
      requests := [UserQuery("", Some("Rapid Admin"))];
    }

    method ReceiveAdminUsers(resp: seq<string>)
      modifies this
      ensures adminUsers == Some(resp) && foundUsers == old(foundUsers) && requests == old(requests)
    {
      adminUsers := Some(resp);
    }

    /** `search_users(q)`: a query of two characters or more is sent; a
        shorter one clears the results and sends nothing. */
    method SearchUsers(q: string)
      modifies this
      ensures |q| > 1 ==> requests == old(requests) + [UserQuery(q, None)] && foundUsers == old(foundUsers)
      ensures |q| <= 1 ==> requests == old(requests) && foundUsers == Some([])
      ensures adminUsers == old(adminUsers)
    {
      if |q| > 1 {
        requests := requests + [UserQuery(q, None)];
      } else {
        foundUsers := Some([]);
      }
    }

    method ReceiveFoundUsers(resp: seq<string>)
      modifies this
      ensures foundUsers == Some(resp) && adminUsers == old(adminUsers) && requests == old(requests)
    {
      foundUsers := Some(resp);
    }
  }
}
