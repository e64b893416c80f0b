/** The environment variable OCL_ICD_FILENAMES: a list of library names, cut up in place in a C string buffer
    by writing a NUL at every separator. */
module SearchPath {
  import opened VendorList

  const PATH_SEPARATOR: char := ':'
  const NUL: char := '\0'

  // ---------- lists of names as text ----------

  predicate Plain(s: string) {
    NUL !in s
  }

  predicate IsField(s: string) {
    PATH_SEPARATOR !in s && NUL !in s
  }

  /** The text cut at its separators. */
  function Split(s: string): (fields: seq<string>)
    ensures |fields| > 0
  {
    if s == "" then [""] else
      var rest := Split(s[1..]);
      if s[0] == PATH_SEPARATOR then [""] + rest else [[s[0]] + rest[0]] + rest[1..]
  }

  function Join(fields: seq<string>): string {
    if fields == [] then "" else if |fields| == 1 then fields[0] else fields[0] + [PATH_SEPARATOR] + Join(fields[1..])
  }

  lemma {:induction false} JoinSplit(s: string)
    ensures Join(Split(s)) == s
  {
    if s != "" {
      JoinSplit(s[1..]);
      var rest := Split(s[1..]);
      if s[0] == PATH_SEPARATOR {
        assert ([""] + rest)[1..] == rest;
      } else if |rest| > 1 {
        assert Split(s)[1..] == rest[1..];
        assert Join(Split(s)) == [s[0]] + (rest[0] + [PATH_SEPARATOR] + Join(rest[1..]));
      }
    }
  }

  lemma {:induction false} SplitField(field: string)
    requires IsField(field)
    ensures Split(field) == [field]
  {
    if field != "" {
      assert field[0] in field && field == [field[0]] + field[1..];
      SplitField(field[1..]);
    }
  }

  /** The first field and what follows its separator. */
  lemma {:induction false} SplitStep(field: string, rest: string)
    requires PATH_SEPARATOR !in field
    ensures Split(field + [PATH_SEPARATOR] + rest) == [field] + Split(rest)
  {
    var s := field + [PATH_SEPARATOR] + rest;
    if field == "" {
      assert s[1..] == rest;
    } else {
      SplitStep(field[1..], rest);
      assert s[1..] == field[1..] + [PATH_SEPARATOR] + rest;
      assert s[0] == field[0] && field[0] in field && field == [field[0]] + field[1..];
    }
  }

  lemma {:induction false} SplitJoin(fields: seq<string>)
    requires fields != [] && forall i :: 0 <= i < |fields| ==> IsField(fields[i])
    ensures Split(Join(fields)) == fields
  {
    if |fields| == 1 {
      SplitField(fields[0]);
    } else {
      SplitJoin(fields[1..]);
      SplitStep(fields[0], Join(fields[1..]));
    }
  }

  // ---------- the names handed on ----------

  /** All fields, except a last one that is empty. */
  function Names(s: string): seq<string> {
    var fields := Split(s);
    if fields[|fields| - 1] == "" then fields[..|fields| - 1] else fields
  }

  lemma {:induction false} JoinInit(fields: seq<string>)
    requires |fields| > 1
    ensures Join(fields) == Join(fields[..|fields| - 1]) + [PATH_SEPARATOR] + fields[|fields| - 1]
  {
    if |fields| > 2 {
      JoinInit(fields[1..]);
      assert fields[1..][..|fields| - 2] == fields[..|fields| - 1][1..];
    } else {
      assert fields[1..] == [fields[1]] && fields[..1] == [fields[0]];
    }
  }

  /** The names joined again are the text, up to one separator at its end. */
  lemma NamesRestoreText(s: string)
    ensures Names(s) == [] ==> s == ""
    ensures s == Join(Names(s)) || s == Join(Names(s)) + [PATH_SEPARATOR]
  {
    JoinSplit(s);
    var fields := Split(s);
    if fields[|fields| - 1] == "" && |fields| > 1 {
      JoinInit(fields);
    }
  }

  /** Every list of names whose last one is not empty can be passed in this way. */
  lemma NamesOfJoin(names: seq<string>)
    requires forall i :: 0 <= i < |names| ==> IsField(names[i])
    requires names != [] ==> names[|names| - 1] != ""
    ensures Names(Join(names)) == names
  {
    if names != [] {
      SplitJoin(names);
    }
  }

  lemma NamesStep(field: string, rest: string)
    requires PATH_SEPARATOR !in field
    ensures Names(field + [PATH_SEPARATOR] + rest) == [field] + Names(rest)
  {
    SplitStep(field, rest);
    var fields := Split(rest);
    assert ([field] + fields)[..|fields|] == [field] + fields[..|fields| - 1];
  }

  lemma NamesField(field: string)
    requires IsField(field)
    ensures Names(field) == if field == "" then [] else [field]
  {
    SplitField(field);
  }

  /** Names are separated by colons, and by nothing else. */
  lemma ColonSeparates(first: string, second: string)
    requires ':' !in first && NUL !in first && ':' !in second && NUL !in second && second != ""
    ensures Names(first + ":" + second) == [first, second] && Names(first + ":" + second + ":") == [first, second]
  {
    NamesField(second);
    NamesStep(first, second);
    NamesField("");
    NamesStep(second, "");
    NamesStep(first, second + ":" + "");
    assert first + ":" + second + ":" == first + ":" + (second + ":" + "");
  }

  // ---------- the buffer ----------

  /** The C string that starts at index i: everything up to the first NUL. */
  function CString(buffer: seq<char>, i: nat): string
    requires i <= |buffer|
    decreases |buffer| - i
  {
    if i == |buffer| || buffer[i] == NUL then "" else [buffer[i]] + CString(buffer, i + 1)
  }

  lemma {:induction false} CStringIs(buffer: seq<char>, i: nat, n: nat)
    requires i <= n < |buffer| && buffer[n] == NUL && Plain(buffer[i..n])
    ensures CString(buffer, i) == buffer[i..n]
    decreases n - i
  {
    if i < n {
      assert buffer[i] == buffer[i..n][0];
      assert buffer[i + 1..n] == buffer[i..n][1..];
      CStringIs(buffer, i + 1, n);
      assert buffer[i..n] == [buffer[i]] + buffer[i + 1..n];
    }
  }

  /** The buffer holds the text and its terminating NUL. */
  predicate HoldsText(buffer: seq<char>, text: string) {
    |buffer| == |text| + 1 && buffer[..|text|] == text && buffer[|text|] == NUL
  }

  /** The text with a NUL for every separator before index n. */
  predicate CutBefore(buffer: seq<char>, text: string, n: nat) {
    |buffer| == |text| + 1 && buffer[|text|] == NUL &&
    forall i :: 0 <= i < |text| ==> buffer[i] == if i < n && text[i] == PATH_SEPARATOR then NUL else text[i]
  }

  /** strchr: the first separator of the C string at start, if any; otherwise the index of its NUL. */
  method FindSeparator(buffer: array<char>, start: nat, ghost text: string) returns (k: nat)
    requires CutBefore(buffer[..], text, start) && Plain(text) && start <= |text|
    ensures start <= k <= |text| && PATH_SEPARATOR !in text[start..k]
    ensures k < |text| ==> text[k] == PATH_SEPARATOR
    ensures buffer[k] == if k < |text| then PATH_SEPARATOR else NUL
  {
    k := start;
    while buffer[k] != PATH_SEPARATOR && buffer[k] != NUL
      invariant start <= k <= |text| && forall i :: start <= i < k ==> text[i] != PATH_SEPARATOR
      decreases |text| - k
    {
      k := k + 1;
    }
    assert k < |text| ==> text[k] in text;
  }

  /** The index after the field at start, which it terminates. */
  method NextPath(buffer: array<char>, start: nat, ghost text: string) returns (next: nat, ghost end: nat)
    requires CutBefore(buffer[..], text, start) && Plain(text) && start <= |text|
    modifies buffer
    ensures start <= end <= |text| && PATH_SEPARATOR !in text[start..end]
    ensures if end < |text| then text[end] == PATH_SEPARATOR && next == end + 1 else next == end
    ensures CutBefore(buffer[..], text, next) && buffer[end] == NUL
    ensures forall i :: 0 <= i < buffer.Length && i != end ==> buffer[i] == old(buffer[i])
  {
    var k := FindSeparator(buffer, start, text);
    end := k;
    assert forall i :: start <= i < k ==> text[i] == text[start..k][i - start];
    if buffer[k] == NUL {
      next := k;
    } else {
      buffer[k] := NUL;
      next := k + 1;
    }
  }

  /** The attempts that the names and the answers of the system amount to. */
  function Attempts(names: seq<string>, answers: (nat, string) -> Foreign): seq<Attempt> {
    seq(|names|, i requires 0 <= i < |names| => Attempt(Some(names[i]), answers(i, names[i])))
  }

  /** The names as the loader receives them. */
  function Passed(names: seq<string>): seq<Option<string>> {
    seq(|names|, i requires 0 <= i < |names| => Some(names[i]))
  }

  lemma PassedOn(asked: seq<Option<string>>, names: seq<string>, name: string)
    ensures asked + Passed(names) + [Some(name)] == asked + Passed(names + [name])
  {
    assert Passed(names + [name]) == Passed(names) + [Some(name)];
  }

  lemma RunNames(entries: seq<Entry>, names: seq<string>, name: string, answers: (nat, string) -> Foreign)
    ensures Run(entries, Attempts(names + [name], answers)) ==
            Run(entries, Attempts(names, answers)) +
            Added(Attempt(Some(name), answers(|names|, name)), Run(entries, Attempts(names, answers)))
  {
    assert Attempts(names + [name], answers)[..|names|] == Attempts(names, answers);
  }

  /** One round: the name that is handed on, and the names that remain. */
  lemma Round(buffer: seq<char>, text: string, start: nat, end: nat, next: nat)
    requires Plain(text) && start < |text| && start <= end <= |text| && PATH_SEPARATOR !in text[start..end]
    requires if end < |text| then text[end] == PATH_SEPARATOR && next == end + 1 else next == end
    requires CutBefore(buffer, text, next)
    ensures CString(buffer, start) == text[start..end]
    ensures Names(text[start..]) == [text[start..end]] + Names(text[next..])
  {
    var field := text[start..end];
    assert forall i :: start <= i < end ==> text[i] == field[i - start];
    assert buffer[start..end] == field;
    assert forall i :: 0 <= i < |field| ==> field[i] == text[start + i] && text[start + i] in text;
    CStringIs(buffer, start, end);
    if end < |text| {
      assert text[start..] == field + [PATH_SEPARATOR] + text[next..];
      NamesStep(field, text[next..]);
    } else {
      assert text[start..] == field && text[next..] == "";
      NamesField(field);
    }
  }

  /** The name that the loop hands on: the C string left behind by NextPath. */
  method NextName(buffer: array<char>, curFile: nat, ghost text: string) returns (name: string, nextFile: nat)
    requires CutBefore(buffer[..], text, curFile) && Plain(text) && curFile < |text|
    modifies buffer
    ensures curFile < nextFile <= |text| && CutBefore(buffer[..], text, nextFile)
    ensures Names(text[curFile..]) == [name] + Names(text[nextFile..])
  {
    ghost var end;
    nextFile, end := NextPath(buffer, curFile, text);
    Round(buffer[..], text, curFile, end, nextFile);
    name := CString(buffer[..], curFile);
  }

  lemma Untouched(buffer: seq<char>, text: string)
    requires HoldsText(buffer, text)
    ensures CutBefore(buffer, text, 0)
  {
    assert forall i :: 0 <= i < |text| ==> buffer[i] == buffer[..|text|][i];
  }

  lemma NothingLeft(buffer: seq<char>, text: string, n: nat)
    requires CutBefore(buffer, text, n) && Plain(text) && n <= |text|
    ensures buffer[n] == NUL <==> n == |text|
    ensures n == |text| ==> Names(text[n..]) == []
  {
    assert n < |text| ==> text[n] in text;
    NamesField("");
  }

  /** One round of the loop. */
  method HandOn(loader: Loader, buffer: array<char>, curFile: nat, ghost text: string,
                answers: (nat, string) -> Foreign, k: nat)
    returns (name: string, nextFile: nat)
    requires loader.Valid() && CutBefore(buffer[..], text, curFile) && Plain(text) && curFile < |text|
    modifies loader, loader.repr, buffer
    ensures loader.Valid() && fresh(loader.repr - old(loader.repr))
    ensures curFile < nextFile <= |text| && CutBefore(buffer[..], text, nextFile)
    ensures Names(text[curFile..]) == [name] + Names(text[nextFile..])
    ensures buffer[nextFile] == NUL <==> nextFile == |text|
    ensures loader.entries == old(loader.entries) + Added(Attempt(Some(name), answers(k, name)), old(loader.entries))
    ensures loader.asked == old(loader.asked) + [Some(name)] && OnlyFor(name, old(loader.requests), loader.requests)
  {
    name, nextFile := NextName(buffer, curFile, text);
    NothingLeft(buffer[..], text, nextFile);
    loader.VendorAdd(Attempt(Some(name), answers(k, name)));
  }

  lemma Handed(names: seq<string>, name: string, rest: seq<string>)
    ensures names + ([name] + rest) == names + [name] + rest
  {
  }

  /** Hands every name to the loader, in order, and leaves a NUL for every separator. */
  method EnumerateNames(loader: Loader, buffer: array<char>, ghost text: string, answers: (nat, string) -> Foreign)
    requires loader.Valid() && HoldsText(buffer[..], text) && Plain(text)
    modifies loader, loader.repr, buffer
    ensures loader.Valid()
    ensures CutBefore(buffer[..], text, |text|)
    ensures loader.entries == Run(old(loader.entries), Attempts(Names(text), answers))
    ensures loader.asked == old(loader.asked) + Passed(Names(text))
  {
    var nextFile, k := 0, 0;
    ghost var names: seq<string>, rest := [], Names(text);
    Untouched(buffer[..], text);
    assert text[0..] == text;
    NothingLeft(buffer[..], text, 0);
    while buffer[nextFile] != NUL
      invariant nextFile <= |text| && CutBefore(buffer[..], text, nextFile)
      invariant loader.Valid() && fresh(loader.repr - old(loader.repr))
      invariant |names| == k && rest == Names(text[nextFile..]) && names + rest == Names(text)
      invariant buffer[nextFile] == NUL <==> nextFile == |text|
      invariant loader.entries == Run(old(loader.entries), Attempts(names, answers))
      invariant loader.asked == old(loader.asked) + Passed(names)
      decreases |text| - nextFile
    {
      var name;
      name, nextFile := HandOn(loader, buffer, nextFile, text, answers, k);
      RunNames(old(loader.entries), names, name, answers);
      Handed(names, name, rest[1..]);
      PassedOn(old(loader.asked), names, name);
      names, rest := names + [name], rest[1..];
      k := k + 1;
    }
    NothingLeft(buffer[..], text, nextFile);
    assert names + [] == names;
  }

  /** The variable may be unset. */
  method EnumerateEnv(loader: Loader, icdFilenames: array?<char>, ghost text: string, answers: (nat, string) -> Foreign)
    requires loader.Valid()
    requires icdFilenames != null ==> HoldsText(icdFilenames[..], text) && Plain(text)
    modifies loader, loader.repr, if icdFilenames == null then {} else {icdFilenames}
    ensures loader.Valid()
    ensures icdFilenames == null ==> loader.entries == old(loader.entries) && loader.asked == old(loader.asked)
    ensures icdFilenames != null ==> CutBefore(icdFilenames[..], text, |text|)
    ensures icdFilenames != null ==> loader.entries == Run(old(loader.entries), Attempts(Names(text), answers))
    ensures icdFilenames != null ==> loader.asked == old(loader.asked) + Passed(Names(text))
  {
    if icdFilenames != null {
      EnumerateNames(loader, icdFilenames, text, answers);
    }
  }
}
