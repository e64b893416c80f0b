/** The ICD loader's list of vendors: a linked list that grows by one record for every usable platform of a
    library, whatever the operating system and the vendor libraries answer. */
module VendorList {

  /** Opaque pointers of the operating system and of the vendors; NULL is 0. */
  type Pointer = nat

  const NULL: Pointer := 0

  const CL_SUCCESS: int := 0
  const CL_INVALID_VALUE: int := -30
  const CL_PLATFORM_NOT_FOUND_KHR: int := -1001
  const CL_CONTEXT_PLATFORM: int := 0x1084

  datatype Option<T> = None | Some(value: T)

  // ---------- what the foreign calls answer ----------

  /** The answers about one platform that a library reports. */
  datatype PlatformAnswer = PlatformAnswer(
    platform: Pointer, sizeResult: int, suffixAllocated: bool, suffixResult: int, suffix: string,
    vendorAllocated: bool, library: Pointer)

  /** The answers during one attempt to add a library. */
  datatype Foreign = Foreign(
    library: Pointer, extensionAddress: Pointer, platformIDsAddress: Pointer, countResult: int, count: nat,
    listAllocated: bool, listResult: int, platforms: nat -> PlatformAnswer)

  /** One attempt: the library's name, which may be NULL, and the answers. */
  datatype Attempt = Attempt(name: Option<string>, foreign: Foreign)

  // ---------- what an attempt adds ----------

  datatype Entry = Entry(library: Pointer, suffix: string, extensionAddress: Pointer, platform: Pointer)

  predicate Listed(entries: seq<Entry>, library: Pointer) {
    exists i :: 0 <= i < |entries| && entries[i].library == library
  }

  predicate Usable(a: PlatformAnswer) {
    a.platform != NULL && a.sizeResult == CL_SUCCESS && a.suffixAllocated && a.suffixResult == CL_SUCCESS &&
    a.vendorAllocated && a.library != NULL
  }

  predicate Accepted(attempt: Attempt, entries: seq<Entry>) {
    var f := attempt.foreign;
    attempt.name.Some? && f.library != NULL && !Listed(entries, f.library) && f.extensionAddress != NULL &&
    f.platformIDsAddress != NULL && f.countResult == CL_SUCCESS && f.listAllocated && f.listResult == CL_SUCCESS
  }

  function Record(extensionAddress: Pointer, a: PlatformAnswer): seq<Entry> {
    if Usable(a) then [Entry(a.library, a.suffix, extensionAddress, a.platform)] else []
  }

  /** The records for the usable ones among the first n platforms. */
  function Records(f: Foreign, n: nat): seq<Entry> {
    if n == 0 then [] else Records(f, n - 1) + Record(f.extensionAddress, f.platforms(n - 1))
  }

  function Added(attempt: Attempt, entries: seq<Entry>): seq<Entry> {
    if Accepted(attempt, entries) then Records(attempt.foreign, attempt.foreign.count) else []
  }

  /** The list after a run of attempts. */
  function Run(entries: seq<Entry>, attempts: seq<Attempt>): seq<Entry> {
    if attempts == [] then entries else
      var before := Run(entries, attempts[..|attempts| - 1]);
      before + Added(attempts[|attempts| - 1], before)
  }

  /** The number of entries of a library. */
  function EntriesOf(entries: seq<Entry>, library: Pointer): nat {
    if entries == [] then 0 else
      EntriesOf(entries[..|entries| - 1], library) + One(entries[|entries| - 1].library, library)
  }

  function One(h: Pointer, library: Pointer): nat {
    if h == library && h != NULL then 1 else 0
  }

  /** The loads that the list is charged with: one for each entry of the library. */
  lemma {:induction false} EntriesCounted(entries: seq<Entry>, library: Pointer)
    requires library != NULL
    ensures EntriesOf(entries, library) == |set i | 0 <= i < |entries| && entries[i].library == library|
  {
    if entries != [] {
      var n := |entries| - 1;
      EntriesCounted(entries[..n], library);
      var before, after := set i | 0 <= i < n && entries[..n][i].library == library,
                           set i | 0 <= i < |entries| && entries[i].library == library;
      assert after == if entries[n].library == library then before + {n} else before;
    }
  }

  lemma EntriesOfAppend(entries: seq<Entry>, e: Entry, library: Pointer)
    ensures EntriesOf(entries + [e], library) == EntriesOf(entries, library) + One(e.library, library)
  {
    assert (entries + [e])[..|entries|] == entries;
  }

  // ---------- the list ----------

  class Vendor {
    var library: Pointer
    var suffix: string
    var extensionAddress: Pointer
    var platform: Pointer
    var next: Vendor?

    constructor (e: Entry)
      ensures Holds(e) && next == null
    {
      library, suffix, extensionAddress, platform := e.library, e.suffix, e.extensionAddress, e.platform;
      next := null;
    }

    predicate Holds(e: Entry)
      reads this
    {
      library == e.library && suffix == e.suffix && extensionAddress == e.extensionAddress && platform == e.platform
    }
  }

  /** What has been requested since before is one library. */
  ghost predicate OnlyFor(name: string, before: seq<string>, after: seq<string>) {
    before <= after && forall i :: |before| <= i < |after| ==> after[i] == name
  }

  function NamesAsked(attempts: seq<Attempt>): seq<Option<string>> {
    seq(|attempts|, i requires 0 <= i < |attempts| => attempts[i].name)
  }

  class NumPlatforms {
    var value: nat
  }

  ghost predicate LinkedAt(nodes: seq<Vendor>, i: nat)
    requires i < |nodes|
    reads nodes[i]
  {
    nodes[i].next == At(nodes, i + 1)
  }

  ghost function At(nodes: seq<Vendor>, i: nat): Vendor? {
    if i < |nodes| then nodes[i] else null
  }

  class Loader {
    var vendors: Vendor?
    /** The records from the head of the list to its tail, and what they hold. */
    ghost var nodes: seq<Vendor>
    ghost var entries: seq<Entry>
    ghost var repr: set<Vendor>
    /** Loads of libraries not yet undone by an unload, and blocks of memory not yet freed. */
    ghost var loads: Pointer -> int
    ghost var blocks: nat
    /** The names with which the loader has been called, and those with which it has called for a library. */
    ghost var asked: seq<Option<string>>
    ghost var requests: seq<string>

    constructor ()
      ensures Valid() && entries == [] && asked == [] && requests == []
    {
      vendors, nodes, entries, repr, loads, blocks := null, [], [], {}, (h: Pointer) => 0, 0;
      asked, requests := [], [];
    }

    /** Following next from the head visits the records in order and ends in NULL. */
    ghost predicate Linked()
      reads this`vendors, this`nodes, this`repr, repr
    {
      vendors == At(nodes, 0) &&
      (forall i :: 0 <= i < |nodes| ==> nodes[i] in repr) &&
      (forall i {:trigger LinkedAt(nodes, i)} :: 0 <= i < |nodes| ==> LinkedAt(nodes, i))
    }

    ghost predicate Recorded()
      reads this`nodes, this`entries, this`repr, repr
    {
      |nodes| == |entries| && forall i :: 0 <= i < |nodes| ==> nodes[i] in repr && nodes[i].Holds(entries[i])
    }

    /** Every entry holds one load of its library; the loads p and q, if not NULL, are still to be undone or
        to be given to an entry. */
    ghost predicate Loads(p: Pointer, q: Pointer)
      reads this`loads, this`entries
    {
      forall h: Pointer :: loads(h) == EntriesOf(entries, h) + One(p, h) + One(q, h)
    }

    ghost predicate Balanced(p: Pointer, q: Pointer, extra: nat)
      reads this, repr
    {
      Linked() && Recorded() && Loads(p, q) && blocks == 2 * |entries| + extra
    }

    /** Between calls every load belongs to an entry, and a record and its suffix are all the memory in use. */
    ghost predicate Valid()
      reads this, repr
    {
      Balanced(NULL, NULL, 0)
    }

    /** No record is on the list twice: the list has no cycle. */
    lemma NoCycle(i: nat, j: nat)
      requires Linked() && i < j < |nodes|
      ensures nodes[i] != nodes[j]
      decreases |nodes| - j
    {
      assert LinkedAt(nodes, i) && LinkedAt(nodes, j);
      if j + 1 < |nodes| {
        NoCycle(i + 1, j + 1);
      }
    }

    /** The operating system answers with a handle, or with NULL. */
    method LibraryLoad(name: string, answer: Pointer) returns (library: Pointer)
      modifies this`loads, this`requests
      ensures library == answer && requests == old(requests) + [name]
      ensures forall h: Pointer :: loads(h) == old(loads)(h) + One(answer, h)
    {
      library := answer;
      ghost var before := loads;
      loads := (h: Pointer) => before(h) + One(answer, h);
      requests := requests + [name];
    }

    method LibraryUnload(library: Pointer)
      modifies this`loads
      ensures forall h: Pointer :: loads(h) == old(loads)(h) - One(library, h)
    {
      ghost var before := loads;
      loads := (h: Pointer) => before(h) - One(library, h);
    }

    method Allocate(answer: bool) returns (granted: bool)
      modifies this`blocks
      ensures granted == answer && blocks == old(blocks) + if answer then 1 else 0
    {
      granted := answer;
      if answer {
        blocks := blocks + 1;
      }
    }

    method Free()
      requires blocks > 0
      modifies this`blocks
      ensures blocks == old(blocks) - 1
    {
      blocks := blocks - 1;
    }

    /** Whether a library is on the list. */
    method Find(library: Pointer) returns (found: bool)
      requires Linked() && Recorded()
      ensures found <==> Listed(entries, library)
    {
      var vendorIterator := vendors;
      ghost var i := 0;
      while vendorIterator != null
        invariant 0 <= i <= |nodes| && vendorIterator == At(nodes, i)
        invariant forall j :: 0 <= j < i ==> entries[j].library != library
        decreases |nodes| - i
      {
        assert nodes[i].Holds(entries[i]) && LinkedAt(nodes, i);
        if vendorIterator.library == library {
          return true;
        }
        vendorIterator := vendorIterator.next;
        i := i + 1;
      }
      return false;
    }

    /** The tail of a list that is not empty. */
    method Tail() returns (last: Vendor)
      requires Linked() && vendors != null
      ensures nodes != [] && last == nodes[|nodes| - 1] && last.next == null
    {
      last := vendors;
      ghost var i := 0;
      while last.next != null
        invariant 0 <= i < |nodes| && last == nodes[i]
        decreases |nodes| - i
      {
        assert LinkedAt(nodes, i);
        last := last.next;
        i := i + 1;
      }
      assert LinkedAt(nodes, i);
    }

    /** Walks to the tail and links a record there. */
    method Append(vendor: Vendor, ghost e: Entry)
      requires Linked() && Recorded() && vendor !in repr
      requires vendor.next == null && vendor.Holds(e)
      modifies this`vendors, this`nodes, this`entries, this`repr, repr
      ensures Linked() && Recorded()
      ensures nodes == old(nodes) + [vendor] && entries == old(entries) + [e] && repr == old(repr) + {vendor}
    {
      ghost var was := nodes;
      if vendors == null {
        vendors := vendor;
      } else {
        var last := Tail();
        last.next := vendor;
      }
      nodes, entries, repr := nodes + [vendor], entries + [e], repr + {vendor};
      forall i | 0 <= i < |nodes| ensures LinkedAt(nodes, i) && nodes[i].Holds(entries[i]) {
        if i < |was| {
          assert nodes[i] == was[i] && old(LinkedAt(was, i)) && old(was[i].Holds(entries[i]));
          assert i + 1 < |was| ==> old(was[i].next) == was[i + 1];
        }
      }
    }

    /** Links a new record for a library that has just been loaded. */
    method Link(e: Entry, ghost p: Pointer, ghost extra: nat)
      requires Balanced(p, e.library, extra + 2)
      modifies this`vendors, this`nodes, this`entries, this`repr, repr
      ensures Balanced(p, NULL, extra)
      ensures old(nodes) <= nodes && fresh(repr - old(repr))
      ensures entries == old(entries) + [e]
    {
      var vendor := new Vendor(e);
      forall h: Pointer ensures EntriesOf(entries + [e], h) == EntriesOf(entries, h) + One(e.library, h) {
        EntriesOfAppend(entries, e, h);
      }
      Append(vendor, e);
    }

    /** Loads the library for a record, whose suffix and block are already there. */
    method LoadAndLink(name: string, extensionAddress: Pointer, a: PlatformAnswer, ghost p: Pointer)
      requires Balanced(p, NULL, 3)
      modifies this, repr
      ensures Balanced(p, NULL, 1)
      ensures old(nodes) <= nodes && fresh(repr - old(repr))
      ensures entries == old(entries) + if a.library == NULL then [] else
                                          [Entry(a.library, a.suffix, extensionAddress, a.platform)]
      ensures asked == old(asked) && OnlyFor(name, old(requests), requests)
    {
      var library := LibraryLoad(name, a.library);
      if library == NULL {
        Free();
        Free();
        return;
      }
      Link(Entry(library, a.suffix, extensionAddress, a.platform), p, 1);
    }

    /** The body of the loop over the platforms of a library. */
    method AddPlatform(name: string, extensionAddress: Pointer, a: PlatformAnswer, ghost p: Pointer)
      requires Balanced(p, NULL, 1)
      modifies this, repr
      ensures Balanced(p, NULL, 1)
      ensures old(nodes) <= nodes && fresh(repr - old(repr))
      ensures entries == old(entries) + Record(extensionAddress, a)
      ensures asked == old(asked) && OnlyFor(name, old(requests), requests)
    {
      if a.platform == NULL || a.sizeResult != CL_SUCCESS {
        return;
      }
      var suffixBlock := Allocate(a.suffixAllocated);
      if !suffixBlock {
        return;
      }
      if a.suffixResult != CL_SUCCESS {
        Free();
        return;
      }
      var vendorBlock := Allocate(a.vendorAllocated);
      if !vendorBlock {
        Free();
        return;
      }
      LoadAndLink(name, extensionAddress, a, p);
    }

    /** The loop over the platforms of a library. */
    method AddPlatforms(name: string, extensionAddress: Pointer, count: nat, f: Foreign, ghost p: Pointer)
      requires Balanced(p, NULL, 1) && f.extensionAddress == extensionAddress
      modifies this, repr
      ensures Balanced(p, NULL, 1)
      ensures old(nodes) <= nodes && fresh(repr - old(repr))
      ensures entries == old(entries) + Records(f, count)
      ensures asked == old(asked) && OnlyFor(name, old(requests), requests)
    {
      for i := 0 to count
        invariant Balanced(p, NULL, 1)
        invariant old(nodes) <= nodes && fresh(repr - old(repr))
        invariant entries == old(entries) + Records(f, i)
        invariant asked == old(asked) && OnlyFor(name, old(requests), requests)
      {
        AddPlatform(name, extensionAddress, f.platforms(i), p);
      }
    }

    /** Adds a library, or leaves everything as it was. */
    method VendorAdd(attempt: Attempt)
      requires Valid()
      modifies this, repr
      ensures Valid()
      ensures old(nodes) <= nodes && fresh(repr - old(repr))
      ensures entries == old(entries) + Added(attempt, old(entries))
      ensures asked == old(asked) + [attempt.name]
      ensures if attempt.name.None? then requests == old(requests)
              else OnlyFor(attempt.name.value, old(requests), requests)
    {
      asked := asked + [attempt.name];
      if attempt.name.None? {
        return;
      }
      var f := attempt.foreign;
      var library := LibraryLoad(attempt.name.value, f.library);
      if library == NULL {
        return;
      }
      AddLibrary(attempt.name.value, library, f);
      LibraryUnload(library);
    }

    /** What happens between the load of a library and its unload. */
    method AddLibrary(name: string, library: Pointer, f: Foreign)
      requires Balanced(library, NULL, 0) && f.library == library != NULL
      modifies this, repr
      ensures Balanced(library, NULL, 0)
      ensures old(nodes) <= nodes && fresh(repr - old(repr))
      ensures entries == old(entries) + Added(Attempt(Some(name), f), old(entries))
      ensures asked == old(asked) && OnlyFor(name, old(requests), requests)
    {
      var found := Find(library);
      if found || f.extensionAddress == NULL || f.platformIDsAddress == NULL || f.countResult != CL_SUCCESS {
        return;
      }
      var platforms := Allocate(f.listAllocated);
      if !platforms {
        return;
      }
      if f.listResult == CL_SUCCESS {
        AddPlatforms(name, f.extensionAddress, f.count, f, library);
      }
      Free();
    }

    /** Any run of attempts. */
    method AddAll(attempts: seq<Attempt>)
      requires Valid()
      modifies this, repr
      ensures Valid()
      ensures old(nodes) <= nodes && fresh(repr - old(repr))
      ensures entries == Run(old(entries), attempts)
      ensures asked == old(asked) + NamesAsked(attempts)
    {
      for i := 0 to |attempts|
        invariant Valid()
        invariant old(nodes) <= nodes && fresh(repr - old(repr))
        invariant entries == Run(old(entries), attempts[..i])
        invariant asked == old(asked) + NamesAsked(attempts[..i])
      {
        assert attempts[..i + 1][..i] == attempts[..i];
        VendorAdd(attempts[i]);
      }
      assert attempts[..|attempts|] == attempts;
    }

    // ---------- looking at the list ----------

    /** The loop over the list: one platform into the array while there is room, one more in the counter. */
    method Enumerate(numEntries: nat, platforms: array?<Pointer>, numPlatforms: NumPlatforms?)
      requires Linked() && Recorded()
      requires platforms != null ==> numEntries <= platforms.Length
      requires platforms != null ==> forall i :: 0 <= i < numEntries ==> platforms[i] == NULL
      requires numPlatforms != null ==> numPlatforms.value == 0
      modifies if platforms == null then {} else {platforms}, if numPlatforms == null then {} else {numPlatforms}
      ensures numPlatforms != null ==> numPlatforms.value == |entries|
      ensures platforms != null ==>
                forall i :: 0 <= i < platforms.Length ==>
                  platforms[i] == if i < numEntries && i < |entries| then entries[i].platform else old(platforms[i])
    {
      var vendor := vendors;
      var filled, remaining := 0, numEntries;
      ghost var i := 0;
      while vendor != null
        invariant 0 <= i <= |nodes| && vendor == At(nodes, i)
        invariant filled + remaining == numEntries
        invariant platforms != null ==> filled == if i < numEntries then i else numEntries
        invariant numPlatforms != null ==> numPlatforms.value == i
        invariant platforms != null ==>
                    forall j :: 0 <= j < platforms.Length ==>
                      platforms[j] == if j < numEntries && j < i then entries[j].platform else old(platforms[j])
        decreases |nodes| - i
      {
        assert nodes[i].Holds(entries[i]) && LinkedAt(nodes, i);
        if remaining != 0 && platforms != null {
          platforms[filled] := vendor.platform;
          filled := filled + 1;
          remaining := remaining - 1;
        }
        if numPlatforms != null {
          numPlatforms.value := numPlatforms.value + 1;
        }
        vendor := vendor.next;
        i := i + 1;
      }
    }

    /** clGetPlatformIDs on a caller's array and counter, either of which may be NULL. */
    method GetPlatformIDs(numEntries: nat, platforms: array?<Pointer>, numPlatforms: NumPlatforms?)
      returns (result: int)
      requires Valid()
      requires platforms != null ==> numEntries <= platforms.Length
      modifies if platforms == null then {} else {platforms}, if numPlatforms == null then {} else {numPlatforms}
      ensures Valid()
      ensures CL_SUCCESS == 0 && CL_INVALID_VALUE == -30 && CL_PLATFORM_NOT_FOUND_KHR == -1001
      ensures result == CL_INVALID_VALUE <==>
              (platforms == null && numPlatforms == null) || (platforms != null && numEntries == 0)
      ensures result == CL_PLATFORM_NOT_FOUND_KHR <==> result != CL_INVALID_VALUE && entries == []
      ensures result == CL_SUCCESS <==> result != CL_INVALID_VALUE && entries != []
      ensures numPlatforms != null ==>
                numPlatforms.value == if result == CL_INVALID_VALUE then old(numPlatforms.value) else |entries|
      ensures platforms != null && result != CL_INVALID_VALUE ==>
                forall i :: 0 <= i < platforms.Length ==>
                  platforms[i] == if i >= numEntries then old(platforms[i])
                                  else if i < |entries| then entries[i].platform else NULL
      ensures platforms != null && result == CL_INVALID_VALUE ==> platforms[..] == old(platforms[..])
    {
      if numEntries == 0 && platforms != null {
        return CL_INVALID_VALUE;
      }
      if platforms == null && numPlatforms == null {
        return CL_INVALID_VALUE;
      }
      if numPlatforms != null {
        numPlatforms.value := 0;
      }
      if platforms != null {
        for i := 0 to numEntries
          invariant forall j :: 0 <= j < platforms.Length ==> platforms[j] == if j < i then NULL else old(platforms[j])
          invariant numPlatforms != null ==> numPlatforms.value == 0
        {
          platforms[i] := NULL;
        }
      }
      if vendors == null {
        return CL_PLATFORM_NOT_FOUND_KHR;
      }
      Enumerate(numEntries, platforms, numPlatforms);
      return CL_SUCCESS;
    }

    /** The fallback of clGetExtensionFunctionAddress: the vendor that is asked, if any. */
    method VendorForFunction(name: string) returns (vendor: Vendor?)
      requires Valid()
      ensures vendor == null <==> forall i :: 0 <= i < |entries| ==> !HasSuffix(name, entries[i].suffix)
      ensures vendor != null ==>
                exists i :: 0 <= i < |entries| && vendor == nodes[i] && HasSuffix(name, entries[i].suffix) &&
                            forall j :: 0 <= j < i ==> !HasSuffix(name, entries[j].suffix)
    {
      vendor := vendors;
      ghost var i := 0;
      while vendor != null
        invariant 0 <= i <= |nodes| && vendor == At(nodes, i)
        invariant forall j :: 0 <= j < i ==> !HasSuffix(name, entries[j].suffix)
        decreases |nodes| - i
      {
        assert nodes[i].Holds(entries[i]) && LinkedAt(nodes, i);
        var length := |vendor.suffix|;
        if length <= |name| && length > 0 && name[|name| - length..] == vendor.suffix {
          return;
        }
        vendor := vendor.next;
        i := i + 1;
      }
    }

    /** The platform that context properties select: none given, the first vendor's; otherwise the value of the
        last platform property before the terminating zero. */
    method ContextPlatform(properties: array?<int>) returns (platform: int)
      requires Valid()
      requires properties != null ==> Terminated(properties[..])
      ensures properties == null && entries != [] ==> platform == entries[0].platform
      ensures properties == null && entries == [] ==> platform == NULL
      ensures properties != null ==> platform == Selected(properties[..], Pairs(properties[..], 0))
    {
      if properties == null {
        if vendors != null {
          assert nodes[0].Holds(entries[0]);
          return vendors.platform;
        }
        return NULL;
      }
      platform := NULL;
      var k := 0;
      ghost var s := properties[..];
      while properties[2 * k] != 0
        invariant 0 <= k && TerminatedFrom(s, k) && s == properties[..]
        invariant Pairs(s, 0) == k + Pairs(s, k) && platform == Selected(s, k)
        decreases Pairs(s, k)
      {
        if properties[2 * k] == CL_CONTEXT_PLATFORM {
          platform := properties[2 * k + 1];
        }
        k := k + 1;
      }
    }
  }

  predicate HasSuffix(name: string, suffix: string) {
    0 < |suffix| <= |name| && name[|name| - |suffix|..] == suffix
  }

  /** The names that a suffix is looked up for: those it ends. */
  lemma HasSuffixIff(name: string, suffix: string)
    ensures HasSuffix(name, suffix) <==> suffix != "" && exists stem: string :: name == stem + suffix
  {
    if HasSuffix(name, suffix) {
      assert name == name[..|name| - |suffix|] + suffix;
    }
  }

  // ---------- context properties ----------

  /** From pair k on, a zero key follows at an even index. */
  ghost predicate TerminatedFrom(s: seq<int>, k: nat) {
    exists n :: n >= k && 2 * n < |s| && s[2 * n] == 0
  }

  ghost predicate Terminated(s: seq<int>) {
    TerminatedFrom(s, 0)
  }

  /** Pairs from pair k to the terminating zero. */
  ghost function Pairs(s: seq<int>, k: nat): (n: nat)
    requires TerminatedFrom(s, k)
    ensures 2 * (k + n) < |s| && s[2 * (k + n)] == 0
    ensures forall i :: k <= i < k + n ==> s[2 * i] != 0
    decreases |s| - k
  {
    if s[2 * k] == 0 then 0 else 1 + Pairs(s, k + 1)
  }

  /** The platform among the first n pairs. */
  function Selected(s: seq<int>, n: nat): int
    requires 2 * n <= |s|
  {
    if n == 0 then NULL else if s[2 * n - 2] == CL_CONTEXT_PLATFORM then s[2 * n - 1] else Selected(s, n - 1)
  }

  /** The last platform property wins. */
  lemma {:induction false} LastPropertyWins(s: seq<int>, n: nat, k: nat)
    requires 2 * n <= |s| && k < n && s[2 * k] == 0x1084
    requires forall i :: k < i < n ==> s[2 * i] != 0x1084
    ensures Selected(s, n) == s[2 * k + 1]
  {
    if k < n - 1 {
      assert s[2 * (n - 1)] != 0x1084;
      LastPropertyWins(s, n - 1, k);
    }
  }

  /** Without one, no platform is selected. */
  lemma {:induction false} NoPlatformProperty(s: seq<int>, n: nat)
    requires 2 * n <= |s|
    requires forall i :: 0 <= i < n ==> s[2 * i] != 0x1084
    ensures Selected(s, n) == 0
  {
    if n > 0 {
      assert s[2 * (n - 1)] != 0x1084;
      NoPlatformProperty(s, n - 1);
    }
  }

  // ---------- whole runs ----------

  lemma {:induction false} RunGrows(entries: seq<Entry>, attempts: seq<Attempt>, i: nat)
    requires i <= |attempts|
    ensures Run(entries, attempts[..i]) <= Run(entries, attempts)
  {
    if i < |attempts| {
      var n := |attempts| - 1;
      RunGrows(entries, attempts[..n], i);
      assert attempts[..n][..i] == attempts[..i];
    } else {
      assert attempts[..i] == attempts;
    }
  }

  /** What attempt i of a run adds. */
  function AddedAt(entries: seq<Entry>, attempts: seq<Attempt>, i: nat): seq<Entry>
    requires i < |attempts|
  {
    Added(attempts[i], Run(entries, attempts[..i]))
  }

  /** The foreign calls of an attempt succeed up to the look-up in the list. */
  predicate Answers(attempt: Attempt) {
    Accepted(attempt, [])
  }

  /** Every usable platform reports the handle that was looked up: the load that its record keeps gave the same
      handle as the first one. */
  ghost predicate SameHandle(attempt: Attempt) {
    var f := attempt.foreign;
    forall i: nat :: i < f.count && Usable(f.platforms(i)) ==> f.platforms(i).library == f.library
  }

  /** An attempt after some others lists no library that is already listed. */
  ghost predicate AddsNewOnly(attempt: Attempt, entries: seq<Entry>) {
    forall k: nat :: k < |Added(attempt, entries)| ==> !Listed(entries, Added(attempt, entries)[k].library)
  }

  lemma {:induction false} RecordOfPlatform(f: Foreign, n: nat, k: nat) returns (i: nat)
    requires k < |Records(f, n)|
    ensures i < n && Usable(f.platforms(i)) && Records(f, n)[k].library == f.platforms(i).library
  {
    if k < |Records(f, n - 1)| {
      i := RecordOfPlatform(f, n - 1, k);
    } else {
      i := n - 1;
    }
  }

  /** The number of usable ones among the first n platforms. */
  function UsableBelow(f: Foreign, n: nat): nat {
    |set i: nat | i < n && Usable(f.platforms(i))|
  }

  lemma UsableBelowStep(f: Foreign, n: nat)
    ensures UsableBelow(f, n + 1) == UsableBelow(f, n) + if Usable(f.platforms(n)) then 1 else 0
  {
    var before, after := set i: nat | i < n && Usable(f.platforms(i)), set i: nat | i < n + 1 && Usable(f.platforms(i));
    assert after == if Usable(f.platforms(n)) then before + {n} else before;
  }

  /** One record for every usable platform. */
  lemma {:induction false} RecordsCounted(f: Foreign, n: nat)
    ensures |Records(f, n)| == UsableBelow(f, n)
  {
    if n > 0 {
      RecordsCounted(f, n - 1);
      UsableBelowStep(f, n - 1);
    }
  }

  /** The records stand in the order of the platforms, and each holds what was answered about its own. */
  lemma {:induction false} RecordedAt(f: Foreign, n: nat, i: nat)
    requires i < n && Usable(f.platforms(i))
    ensures var k, a := UsableBelow(f, i), f.platforms(i);
            k < |Records(f, n)| && Records(f, n)[k] == Entry(a.library, a.suffix, f.extensionAddress, a.platform)
  {
    if i < n - 1 {
      RecordedAt(f, n - 1, i);
    } else {
      RecordsCounted(f, i);
    }
  }

  /** A platform is passed over. */
  predicate PassedOver(a: PlatformAnswer) {
    a.platform == 0 || a.sizeResult != 0 || !a.suffixAllocated || a.suffixResult != 0 || !a.vendorAllocated ||
    a.library == 0
  }

  /** An attempt adds nothing exactly when one of the early exits is taken or every platform is passed over. */
  lemma NothingAddedIff(attempt: Attempt, entries: seq<Entry>)
    ensures var f := attempt.foreign;
            Added(attempt, entries) == [] <==>
            attempt.name.None? || f.library == 0 ||
            (exists i :: 0 <= i < |entries| && entries[i].library == f.library) ||
            f.extensionAddress == 0 || f.platformIDsAddress == 0 || f.countResult != 0 || !f.listAllocated ||
            f.listResult != 0 || forall i: nat :: i < f.count ==> PassedOver(f.platforms(i))
  {
    var f := attempt.foreign;
    if Added(attempt, entries) != [] {
      var i := RecordOfPlatform(f, f.count, 0);
      assert !PassedOver(f.platforms(i));
    } else if Accepted(attempt, entries) {
      forall i: nat | i < f.count ensures PassedOver(f.platforms(i)) {
        if !PassedOver(f.platforms(i)) {
          RecordedAt(f, f.count, i);
        }
      }
    }
  }

  lemma SameHandleAddsNew(attempt: Attempt, entries: seq<Entry>)
    requires SameHandle(attempt)
    ensures AddsNewOnly(attempt, entries)
  {
    forall k: nat | k < |Added(attempt, entries)| ensures !Listed(entries, Added(attempt, entries)[k].library) {
      var i := RecordOfPlatform(attempt.foreign, attempt.foreign.count, k);
    }
  }

  /** An attempt whose foreign calls all succeed, with one usable platform. */
  function OneUsable(first: Pointer, second: Pointer): Attempt {
    Attempt(Some("libvendor.so"),
            Foreign(first, 1, 1, CL_SUCCESS, 1, true, CL_SUCCESS,
                    (i: nat) => PlatformAnswer(7, CL_SUCCESS, true, CL_SUCCESS, "", true, second)))
  }

  lemma OneUsableAdds(library: Pointer)
    requires library != NULL
    ensures Run([], [OneUsable(library, library)]) == [Entry(library, "", 1, 7)]
  {
    var a := OneUsable(library, library);
    assert [a][..0] == [];
    assert Records(a.foreign, 1) == Records(a.foreign, 0) + [Entry(library, "", 1, 7)];
  }

  /** A platform whose record keeps another handle makes the attempt list again what an earlier attempt listed
      under that handle. */
  lemma OtherHandleRepeats(attempt: Attempt) returns (earlier: Attempt)
    requires Answers(attempt) && !SameHandle(attempt)
    ensures !AddsNewOnly(attempt, Run([], [earlier]))
  {
    var f := attempt.foreign;
    var i: nat :| i < f.count && Usable(f.platforms(i)) && f.platforms(i).library != f.library;
    var other := f.platforms(i).library;
    earlier := OneUsable(other, other);
    OneUsableAdds(other);
    var entries := [Entry(other, "", 1, 7)];
    assert entries[0].library == other && Listed(entries, other);
    RecordedAt(f, f.count, i);
    var k := UsableBelow(f, i);
    assert Added(attempt, entries)[k].library == other;
  }

  /** The look-up keeps libraries from being listed twice, whatever attempts came before, exactly when every
      record keeps the handle that was looked up. */
  lemma NewOnlyIffSameHandle(attempt: Attempt)
    requires Answers(attempt)
    ensures SameHandle(attempt) <==> forall attempts: seq<Attempt> :: AddsNewOnly(attempt, Run([], attempts))
    ensures SameHandle(attempt) <==> forall entries: seq<Entry> :: AddsNewOnly(attempt, entries)
  {
    if SameHandle(attempt) {
      forall entries: seq<Entry> ensures AddsNewOnly(attempt, entries) {
        SameHandleAddsNew(attempt, entries);
      }
    } else {
      var earlier := OtherHandleRepeats(attempt);
      assert !AddsNewOnly(attempt, Run([], [earlier]));
    }
  }

  /** What attempt i of a run adds is listed before every later attempt. */
  lemma AddedStaysListed(entries: seq<Entry>, attempts: seq<Attempt>, i: nat, j: nat, k: nat)
    requires i < j < |attempts| && k < |AddedAt(entries, attempts, i)|
    ensures Listed(Run(entries, attempts[..j]), AddedAt(entries, attempts, i)[k].library)
  {
    var before, after := Run(entries, attempts[..i]), Run(entries, attempts[..i + 1]);
    assert attempts[..i + 1][..i] == attempts[..i];
    assert after[|before| + k] == AddedAt(entries, attempts, i)[k];
    RunGrows(entries, attempts[..j], i + 1);
    assert attempts[..j][..i + 1] == attempts[..i + 1];
    assert Run(entries, attempts[..j])[|before| + k].library == AddedAt(entries, attempts, i)[k].library;
  }

  /** Entries that different attempts added have different libraries. */
  lemma OneAttemptPerLibrary(entries: seq<Entry>, attempts: seq<Attempt>, i: nat, j: nat, k: nat, l: nat)
    requires i < j < |attempts| && SameHandle(attempts[j])
    requires k < |AddedAt(entries, attempts, i)| && l < |AddedAt(entries, attempts, j)|
    ensures AddedAt(entries, attempts, i)[k].library != AddedAt(entries, attempts, j)[l].library
  {
    AddedStaysListed(entries, attempts, i, j, k);
    NewOnlyIffSameHandle(attempts[j]);
    assert AddsNewOnly(attempts[j], Run(entries, attempts[..j]));
  }

  /** A library on the list twice, from two attempts: the second one was looked up under the handle 3, but its
      record keeps the handle 2. */
  lemma SecondLoadIsNotLookedUp()
    ensures !SameHandle(OneUsable(3, 2)) && !AddsNewOnly(OneUsable(3, 2), Run([], [OneUsable(2, 2)]))
    ensures Run([], [OneUsable(2, 2), OneUsable(3, 2)]) == [Entry(2, "", 1, 7), Entry(2, "", 1, 7)]
  {
    var a, b := OneUsable(2, 2), OneUsable(3, 2);
    OneUsableAdds(2);
    assert Usable(b.foreign.platforms(0)) && b.foreign.platforms(0).library != b.foreign.library;
    assert [a, b][..1] == [a];
    assert Records(b.foreign, 1) == Records(b.foreign, 0) + [Entry(2, "", 1, 7)];
    assert Added(b, Run([], [a])) == [Entry(2, "", 1, 7)];
    assert Run([], [a])[0].library == 2;
  }
}
