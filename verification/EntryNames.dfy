/** Archive entry names and their normalised keys (`_normalize_entry`). */
module EntryNames {
  import opened Bytes
  import opened Utf8

  // ----- split and join at "/"

  function Split(s: string): (parts: seq<string>)
    ensures |parts| > 0
  {
    if s == [] then [[]]
    else
      var rest := Split(s[1..]);
      if s[0] == '/' then [[]] + rest else [[s[0]] + rest[0]] + rest[1..]
  }

  function Join(parts: seq<string>): string {
    if parts == [] then [] else if |parts| == 1 then parts[0] else parts[0] + "/" + Join(parts[1..])
  }

  lemma {:induction false} SplitParts(s: string)
    ensures forall p :: p in Split(s) ==> '/' !in p
    ensures Join(Split(s)) == s
  {
    if s != [] {
      var rest := Split(s[1..]);
      SplitParts(s[1..]);
      if s[0] == '/' {
        assert Split(s)[1..] == rest;
        assert Join(Split(s)) == [] + "/" + s[1..] == s;
      } else {
        var parts := Split(s);
        assert parts[1..] == rest[1..];
        assert rest[0] in rest;
        if |rest| == 1 {
          assert Join(parts) == [s[0]] + s[1..] == s;
        } else {
          assert Join(parts) == [s[0]] + (rest[0] + "/" + Join(rest[1..])) == s;
        }
      }
    }
  }

  lemma {:induction false} SplitWord(p: string)
    requires '/' !in p
    ensures Split(p) == [p]
  {
    if p != [] {
      assert p == [p[0]] + p[1..];
      SplitWord(p[1..]);
    }
  }

  lemma {:induction false} SplitAppend(p: string, s: string)
    requires '/' !in p
    ensures Split(p + "/" + s) == [p] + Split(s)
  {
    var all := p + "/" + s;
    if p == [] {
      assert all == ['/'] + s;
      assert all[1..] == s;
    } else {
      assert p == [p[0]] + p[1..];
      assert all[1..] == p[1..] + "/" + s;
      SplitAppend(p[1..], s);
    }
  }

  lemma {:induction false} SplitJoin(parts: seq<string>)
    requires parts != [] && forall p :: p in parts ==> '/' !in p
    ensures Split(Join(parts)) == parts
  {
    if |parts| == 1 {
      SplitWord(parts[0]);
    } else {
      SplitJoin(parts[1..]);
      SplitAppend(parts[0], Join(parts[1..]));
    }
  }

  // ----- case

  function LowerChar(c: char): char {
    if 'A' <= c <= 'Z' then (c as int + 32) as char else c
  }

  /** `lower()` and `casefold()`, which agree on ASCII. */
  function Lower(s: string): (t: string)
    ensures |t| == |s|
    ensures forall i :: 0 <= i < |s| ==> t[i] == LowerChar(s[i])
  {
    seq(|s|, i requires 0 <= i < |s| => LowerChar(s[i]))
  }

  lemma LowerAppend(a: string, b: string)
    ensures Lower(a + b) == Lower(a) + Lower(b)
  {
  }

  // ----- the normalised key

  predicate IsLetter(c: char) {
    'A' <= c <= 'Z' || 'a' <= c <= 'z'
  }

  /** Looks like `c:`. */
  predicate HasDrive(name: string) {
    |name| >= 2 && IsLetter(name[0]) && name[1] == ':'
  }

  predicate SurfaceLegal(name: string) {
    && 0 < |name| <= 255 && IsAscii(name) && '\\' !in name && '\0' !in name && name[0] != '/'
  }

  predicate Dropped(component: string) {
    component == "" || component == "."
  }

  predicate Control(c: char) {
    c as int < 0x20 || c as int == 0x7F
  }

  predicate ComponentLegal(component: string) {
    component != ".." && forall i :: 0 <= i < |component| ==> !Control(component[i])
  }

  predicate ComponentsLegal(parts: seq<string>) {
    forall i :: 0 <= i < |parts| ==> ComponentLegal(parts[i])
  }

  /** The components that stay, in lower case. */
  function Kept(parts: seq<string>): seq<string> {
    if parts == [] then []
    else
      var last := parts[|parts| - 1];
      Kept(parts[..|parts| - 1]) + if Dropped(last) then [] else [Lower(last)]
  }

  /** The key of a safe entry name. */
  function Key(name: string): Option<string> {
    if !SurfaceLegal(name) || HasDrive(name) || !ComponentsLegal(Split(name)) then None
    else
      var kept := Kept(Split(name));
      if kept == [] || name[|name| - 1] == '/' then None else Some(Join(kept))
  }

  method NormalizeEntry(name: string) returns (r: Result<string>)
    ensures r.Ok? <==> Key(name).Some?
    ensures r.Ok? ==> Key(name) == Some(r.value)
  {
    hide ComponentLegal, Join, Split;
    if !SurfaceLegal(name) { return Rejected; }
    if HasDrive(name) { return Rejected; }
    var parts := Split(name);
    var result: seq<string> := [];
    for i := 0 to |parts|
      invariant ComponentsLegal(parts[..i]) && result == Kept(parts[..i])
    {
      assert parts[..i + 1][..i] == parts[..i];
      var component := parts[i];
      if !ComponentLegal(component) {
        return Rejected;
      }
      if Dropped(component) { continue; }
      result := result + [Lower(component)];
    }
    assert parts[..|parts|] == parts;
    if result == [] || name[|name| - 1] == '/' { return Rejected; }
    return Ok(Join(result));
  }

  // ----- what keys look like

  lemma {:induction false} KeptParts(parts: seq<string>)
    requires ComponentsLegal(parts) && forall p :: p in parts ==> '/' !in p
    ensures forall k :: k in Kept(parts) ==>
              '/' !in k && !Dropped(k) && ComponentLegal(k) && Lower(k) == k && exists p :: p in parts && k == Lower(p)
    ensures |Kept(parts)| <= |parts|
  {
    hide ComponentLegal, Dropped, Lower;
    if parts != [] {
      var front, last := parts[..|parts| - 1], parts[|parts| - 1];
      KeptParts(front);
      assert last in parts;
      if !Dropped(last) {
        LowerKeeps(last);
      }
    }
  }

  lemma LowerKeeps(p: string)
    ensures '/' in Lower(p) <==> '/' in p
    ensures Dropped(Lower(p)) <==> Dropped(p)
    ensures ComponentLegal(Lower(p)) <==> ComponentLegal(p)
    ensures Lower(Lower(p)) == Lower(p)
  {
    if '/' in p {
      var i :| 0 <= i < |p| && p[i] == '/';
      assert Lower(p)[i] == '/';
    }
    if ComponentLegal(Lower(p)) {
      assert forall i :: 0 <= i < |p| ==> !Control(Lower(p)[i]);
      assert Lower("..") == "..";
    }
    if Lower(p) == "." {
      assert p == ".";
    }
    if Lower(p) == ".." {
      assert p == "..";
    }
  }

  /** A key is split into non-empty lower-case components, none of them `.` or `..`. */
  lemma KeyComponents(name: string)
    requires Key(name).Some?
    ensures var parts := Split(Key(name).value);
            && parts == Kept(Split(name))
            && forall p :: p in parts ==> p != "" && p != "." && p != ".." && Lower(p) == p
  {
    SplitParts(name);
    KeptParts(Split(name));
    SplitJoin(Kept(Split(name)));
  }

  /** Characters of the joined parts: separators and characters of the parts. */
  lemma {:induction false} JoinChars(parts: seq<string>, c: char)
    ensures c in Join(parts) ==> c == '/' || exists p :: p in parts && c in p
    ensures parts != [] && (forall i :: 0 <= i < |parts| ==> parts[i] != "") ==>
              Join(parts) != "" && Join(parts)[0] == parts[0][0]
              && Join(parts)[|Join(parts)| - 1] == parts[|parts| - 1][|parts[|parts| - 1]| - 1]
  {
    if |parts| > 1 {
      JoinChars(parts[1..], c);
      assert parts == [parts[0]] + parts[1..];
      assert parts[0] in parts && parts[|parts| - 1] in parts;
    } else if |parts| == 1 {
      assert parts[0] in parts;
    }
  }

  function Weight(parts: seq<string>): nat {
    if parts == [] then 0 else Weight(parts[..|parts| - 1]) + |parts[|parts| - 1]| + 1
  }

  lemma {:induction false} WeightSplit(first: string, parts: seq<string>)
    ensures Weight([first] + parts) == |first| + 1 + Weight(parts)
  {
    if parts == [] {
      assert [first] + parts == [first];
      assert Weight([first]) == Weight([]) + |first| + 1;
    } else {
      var front := parts[..|parts| - 1];
      WeightSplit(first, front);
      assert ([first] + parts)[..|parts|] == [first] + front;
    }
  }

  lemma {:induction false} JoinLength(parts: seq<string>)
    requires parts != []
    ensures |Join(parts)| + 1 == Weight(parts)
  {
    assert parts == [parts[0]] + parts[1..];
    WeightSplit(parts[0], parts[1..]);
    if |parts| > 1 {
      JoinLength(parts[1..]);
    }
  }

  lemma WeightNext(parts: seq<string>, part: string)
    ensures Weight(parts + [part]) == Weight(parts) + Weight([part])
  {
    assert (parts + [part])[..|parts|] == parts && [part][..0] == [];
  }

  ghost predicate NoneDropped(parts: seq<string>) {
    forall i :: 0 <= i < |parts| ==> !Dropped(parts[i])
  }

  lemma {:induction false} KeptWeight(parts: seq<string>)
    ensures Weight(Kept(parts)) <= Weight(parts)
    ensures Weight(Kept(parts)) == Weight(parts) <==> NoneDropped(parts)
  {
    hide *;
    if parts == [] {
      NoParts();
    } else {
      var front, last := parts[..|parts| - 1], parts[|parts| - 1];
      KeptWeight(front);
      OneWeight(last);
      WeightNext(front, last);
      WeightNext(Kept(front), Lower(last));
      KeptNext(front, last);
      AllButLast(front, last);
      assert parts == front + [last];
    }
  }

  lemma NoParts()
    ensures Kept([]) == [] && NoneDropped([])
  {
  }

  lemma AllButLast(front: seq<string>, last: string)
    ensures NoneDropped(front + [last]) <==> !Dropped(last) && NoneDropped(front)
  {
    hide Dropped;
    var parts := front + [last];
    assert parts[|front|] == last && forall i :: 0 <= i < |front| ==> parts[i] == front[i];
    if NoneDropped(parts) {
      forall i | 0 <= i < |front|
        ensures !Dropped(front[i])
      {
        assert !Dropped(parts[i]);
      }
    }
  }

  lemma OneWeight(part: string)
    ensures Weight([part]) > 0 && Weight([Lower(part)]) == Weight([part])
  {
    assert [part][..0] == [] && [Lower(part)][..0] == [];
  }

  lemma {:induction false} LowerJoin(parts: seq<string>)
    requires forall i :: 0 <= i < |parts| ==> !Dropped(parts[i])
    ensures |Kept(parts)| == |parts| && Join(Kept(parts)) == Lower(Join(parts))
  {
    KeptAll(parts);
    JoinLowered(parts, Kept(parts));
  }

  lemma {:induction false} KeptAll(parts: seq<string>)
    requires forall i :: 0 <= i < |parts| ==> !Dropped(parts[i])
    ensures |Kept(parts)| == |parts| && forall i :: 0 <= i < |parts| ==> Kept(parts)[i] == Lower(parts[i])
  {
    hide Dropped, Lower;
    if parts != [] {
      KeptAll(parts[..|parts| - 1]);
    }
  }

  lemma {:induction false} JoinLowered(parts: seq<string>, lowered: seq<string>)
    requires |lowered| == |parts| && forall i :: 0 <= i < |parts| ==> lowered[i] == Lower(parts[i])
    ensures Join(lowered) == Lower(Join(parts))
  {
    if |parts| > 1 {
      JoinLowered(parts[1..], lowered[1..]);
      LowerAppend(parts[0], "/");
      LowerAppend(parts[0] + "/", Join(parts[1..]));
      assert Lower("/") == "/";
    }
  }

  /** The key is the lower-case name exactly when no component was dropped. */
  lemma KeyIsLowerName(name: string)
    requires Key(name).Some?
    ensures Key(name).value == Lower(name) <==>
              forall i :: 0 <= i < |Split(name)| ==> Split(name)[i] != "" && Split(name)[i] != "."
  {
    var parts := Split(name);
    SplitParts(name);
    KeptWeight(parts);
    JoinLength(parts);
    JoinLength(Kept(parts));
    if forall i :: 0 <= i < |parts| ==> !Dropped(parts[i]) {
      LowerJoin(parts);
    }
  }

  /** Normalising a key gives it back, unless it begins like a drive. */
  lemma KeyOfKey(name: string)
    requires Key(name).Some?
    ensures Key(Key(name).value) == if HasDrive(Key(name).value) then None else Key(name)
  {
    var key := Key(name).value;
    var parts := Split(name);
    SplitParts(name);
    KeptParts(parts);
    KeyComponents(name);
    KeySurface(name);
    assert ComponentsLegal(Split(key));
    NothingDropped(Split(key));
    LowerJoin(Split(key));
    SplitParts(key);
    LowerKey(name);
  }

  lemma NothingDropped(parts: seq<string>)
    requires forall p :: p in parts ==> p != "" && p != "."
    ensures forall i :: 0 <= i < |parts| ==> !Dropped(parts[i])
  {
    forall i | 0 <= i < |parts|
      ensures !Dropped(parts[i])
    {
      assert parts[i] in parts;
    }
  }

  lemma LowerKey(name: string)
    requires Key(name).Some?
    ensures Lower(Key(name).value) == Key(name).value
  {
    KeyComponents(name);
    SplitParts(name);
    hide Key, Lower, Split;
    LoweredJoin(Split(Key(name).value), Key(name).value);
  }

  lemma LoweredJoin(parts: seq<string>, key: string)
    requires parts == Split(key) && forall p :: p in parts ==> Lower(p) == p
    ensures Lower(key) == key
  {
    SplitParts(key);
    hide Lower, Split, Join;
    JoinLowered(parts, parts);
  }

  lemma KeySurface(name: string)
    requires Key(name).Some?
    ensures SurfaceLegal(Key(name).value) && Key(name).value[|Key(name).value| - 1] != '/'
  {
    var key := Key(name).value;
    KeyEnds(name);
    KeyNoLonger(name);
    hide Key;
    forall i | 0 <= i < |key|
      ensures key[i] as int < 0x80 && key[i] != '\\' && key[i] != '\0'
    {
      KeyChar(name, key[i]);
    }
  }

  lemma KeyNoLonger(name: string)
    requires Key(name).Some?
    ensures |Key(name).value| <= |name| <= 255
  {
    SplitParts(name);
    KeptWeight(Split(name));
    JoinLength(Split(name));
    JoinLength(Kept(Split(name)));
  }

  lemma KeyEnds(name: string)
    requires Key(name).Some?
    ensures var key := Key(name).value;
            key != "" && key[0] != '/' && key[|key| - 1] != '/'
  {
    var kept := Kept(Split(name));
    SplitParts(name);
    KeptParts(Split(name));
    assert forall i :: 0 <= i < |kept| ==> kept[i] in kept;
    hide Kept, Split, ComponentsLegal;
    JoinChars(kept, '/');
    var last := kept[|kept| - 1];
    assert kept[0][0] in kept[0] && last[|last| - 1] in last;
  }

  lemma KeyChar(name: string, c: char)
    requires Key(name).Some? && c in Key(name).value
    ensures c as int < 0x80 && c != '\\' && c != '\0'
  {
    var kept := Kept(Split(name));
    SplitParts(name);
    KeptParts(Split(name));
    JoinChars(kept, c);
    assert IsAscii(name) && '\\' !in name && '\0' !in name;
    hide Kept, Join, Split, ComponentsLegal, Key, SurfaceLegal, Dropped, ComponentLegal;
    if c != '/' {
      var k :| k in kept && c in k;
      var p :| p in Split(name) && k == Lower(p);
      LoweredChar(name, p, c);
    }
  }

  lemma LoweredChar(name: string, p: string, c: char)
    requires p in Split(name) && c in Lower(p) && IsAscii(name) && '\\' !in name && '\0' !in name
    ensures c as int < 0x80 && c != '\\' && c != '\0'
  {
    var i :| 0 <= i < |p| && Lower(p)[i] == c;
    PartChars(name, p, p[i]);
    var j :| 0 <= j < |name| && name[j] == p[i];
  }

  lemma PartChars(name: string, p: string, c: char)
    requires p in Split(name) && c in p
    ensures c in name
  {
    SplitParts(name);
    InJoin(Split(name), p, c);
  }

  lemma {:induction false} InJoin(parts: seq<string>, p: string, c: char)
    requires p in parts && c in p
    ensures c in Join(parts)
  {
    if |parts| > 1 && p != parts[0] {
      assert parts == [parts[0]] + parts[1..];
      InJoin(parts[1..], p, c);
    }
  }

  lemma KeptNext(front: seq<string>, last: string)
    ensures Kept(front + [last]) == if Dropped(last) then Kept(front) else Kept(front) + [Lower(last)]
  {
    assert (front + [last])[..|front|] == front;
  }

  /** A relative name can hide a drive that its key then shows. */
  lemma HiddenDrive()
    ensures Key("./c:/x") == Some("c:/x") && Key("c:/x") == None
  {
    HiddenDriveSplit();
    HiddenDriveKept();
    hide Split, Kept, Lower;
    assert Join(["c:", "x"]) == "c:/x";
    assert ComponentsLegal([".", "c:", "x"]);
  }

  lemma HiddenDriveSplit()
    ensures Split("./c:/x") == [".", "c:", "x"]
  {
    SplitAppend(".", "c:/x");
    assert "./c:/x" == "." + "/" + "c:/x";
    SplitAppend("c:", "x");
    assert "c:/x" == "c:" + "/" + "x";
    SplitWord("x");
  }

  lemma HiddenDriveKept()
    ensures Kept([".", "c:", "x"]) == ["c:", "x"]
  {
    var a, b, c := [".", "c:", "x"][..1], [".", "c:", "x"][..2], [".", "c:", "x"];
    assert Lower("c:") == "c:" && Lower("x") == "x";
    assert Dropped(".") && !Dropped("c:") && !Dropped("x");
    hide Dropped, Lower;
    assert a == [] + ["."] && b == a + ["c:"] && c == b + ["x"];
    KeptNext([], ".");
    KeptNext(a, "c:");
    KeptNext(b, "x");
  }

  // ----- keys by the components of a name

  const LOWER_CASE: string := "abcdefghijklmnopqrstuvwxyz"

  const UPPER_CASE: string := "ABCDEFGHIJKLMNOPQRSTUVWXYZ"

  lemma Alphabets()
    ensures |UPPER_CASE| == |LOWER_CASE| == 26
    ensures forall i :: 0 <= i < 26 ==> UPPER_CASE[i] as int == 65 + i && LOWER_CASE[i] as int == 97 + i
  {
  }

  /** The 26 capital letters change, each to its small letter, and no other character does. */
  lemma LowerAlphabet(c: char)
    ensures Lower(UPPER_CASE) == LOWER_CASE
    ensures c !in UPPER_CASE ==> LowerChar(c) == c
    ensures IsLetter(c) <==> LowerChar(c) in LOWER_CASE
  {
    Alphabets();
    hide UPPER_CASE, LOWER_CASE;
    if 'A' <= c <= 'Z' {
      assert UPPER_CASE[c as int - 65] == c && LOWER_CASE[c as int - 65] == LowerChar(c);
    } else if 'a' <= c <= 'z' {
      assert LOWER_CASE[c as int - 97] == c;
    }
  }

  /** Printable ASCII, and no backslash. */
  predicate IsNameChar(c: char) {
    0x20 <= c as int < 0x7F && c as int != 0x5C
  }

  predicate IsComponent(part: string) {
    part != ".." && forall i :: 0 <= i < |part| ==> IsNameChar(part[i])
  }

  /** A letter and a colon. */
  predicate IsDrive(part: string) {
    |part| >= 2 && LowerChar(part[0]) in LOWER_CASE && part[1] == ':'
  }

  /** A relative path of at most 255 printable characters that goes nowhere up, and whose last component is there. */
  ghost predicate SafeParts(parts: seq<string>)
    requires parts != []
  {
    && parts[0] != "" && parts[|parts| - 1] != "" && !IsDrive(parts[0]) && |Join(parts)| <= 255
    && (forall i :: 0 <= i < |parts| ==> IsComponent(parts[i]))
    && exists i :: 0 <= i < |parts| && parts[i] != "" && parts[i] != "."
  }

  lemma NameChars(c: char)
    ensures IsNameChar(c) <==> c as int < 0x80 && c != '\\' && c != '\0' && !Control(c)
  {
    assert '\\' as int == 0x5C && '\0' as int == 0;
  }

  lemma PartsChars(parts: seq<string>)
    requires forall p :: p in parts ==> '/' !in p
    ensures (forall i :: 0 <= i < |parts| ==> IsComponent(parts[i])) <==>
              ComponentsLegal(parts) && IsAscii(Join(parts)) && '\\' !in Join(parts) && '\0' !in Join(parts)
  {
    hide Join, IsNameChar, Control;
    if ComponentsLegal(parts) && IsAscii(Join(parts)) && '\\' !in Join(parts) && '\0' !in Join(parts) {
      forall i, j | 0 <= i < |parts| && 0 <= j < |parts[i]|
        ensures IsNameChar(parts[i][j])
      {
        assert ComponentLegal(parts[i]);
        InJoin(parts, parts[i], parts[i][j]);
        NameChars(parts[i][j]);
      }
    }
    if forall i :: 0 <= i < |parts| ==> IsComponent(parts[i]) {
      forall k | 0 <= k < |Join(parts)|
        ensures Join(parts)[k] as int < 0x80 && Join(parts)[k] != '\\' && Join(parts)[k] != '\0'
      {
        JoinChar(parts, Join(parts)[k]);
      }
      forall i | 0 <= i < |parts|
        ensures ComponentLegal(parts[i])
      {
        PartLegal(parts[i]);
      }
    }
  }

  lemma PartLegal(part: string)
    requires IsComponent(part)
    ensures ComponentLegal(part)
  {
  }

  lemma JoinChar(parts: seq<string>, c: char)
    requires c in Join(parts) && forall i :: 0 <= i < |parts| ==> IsComponent(parts[i])
    ensures c as int < 0x80 && c != '\\' && c != '\0'
  {
    JoinChars(parts, c);
    hide Join;
    if c != '/' {
      var p :| p in parts && c in p;
      var i :| 0 <= i < |parts| && parts[i] == p;
      NameChars(c);
    }
  }

  /** How a joined name begins and ends. */
  lemma JoinEnds(parts: seq<string>)
    requires parts != [] && forall p :: p in parts ==> '/' !in p
    ensures Join(parts) != "" && Join(parts)[0] != '/' <==> parts[0] != ""
    ensures parts[0] != "" ==> (HasDrive(Join(parts)) <==> IsDrive(parts[0]))
  {
    assert parts[0] in parts;
    var name := Join(parts);
    if parts[0] != "" {
      assert name[0] == parts[0][0];
      LowerAlphabet(parts[0][0]);
      if |parts[0]| >= 2 {
        assert name[1] == parts[0][1];
      }
    }
  }

  lemma {:induction false} JoinLast(parts: seq<string>)
    requires parts != [] && parts[0] != "" && forall p :: p in parts ==> '/' !in p
    ensures Join(parts) != "" && (Join(parts)[|Join(parts)| - 1] == '/' <==> parts[|parts| - 1] == "")
  {
    assert parts[0] in parts;
    if |parts| > 1 {
      var rest := Join(parts[1..]);
      assert parts == [parts[0]] + parts[1..];
      if rest != "" {
        JoinLastOf(parts[1..]);
      } else {
        EmptyJoin(parts[1..]);
      }
    }
  }

  lemma EmptyJoin(parts: seq<string>)
    requires parts != [] && Join(parts) == ""
    ensures parts == [""]
  {
  }

  lemma {:induction false} JoinLastOf(parts: seq<string>)
    requires parts != [] && Join(parts) != "" && forall p :: p in parts ==> '/' !in p
    ensures Join(parts)[|Join(parts)| - 1] == '/' <==> parts[|parts| - 1] == ""
  {
    assert parts[0] in parts;
    if |parts| > 1 {
      var rest := Join(parts[1..]);
      assert parts == [parts[0]] + parts[1..];
      if rest != "" {
        JoinLastOf(parts[1..]);
      } else {
        EmptyJoin(parts[1..]);
      }
    }
  }

  lemma {:induction false} KeptSome(parts: seq<string>)
    ensures Kept(parts) != [] <==> exists i :: 0 <= i < |parts| && parts[i] != "" && parts[i] != "."
  {
    hide Lower;
    if parts != [] {
      var front := parts[..|parts| - 1];
      KeptSome(front);
      assert forall i :: 0 <= i < |front| ==> front[i] == parts[i];
      if i :| 0 <= i < |front| && front[i] != "" && front[i] != "." {
        assert parts[i] != "" && parts[i] != ".";
      }
    }
  }

  /** The tests of the name itself, for a name joined from these components. */
  lemma SafeName(parts: seq<string>)
    requires parts != [] && forall p :: p in parts ==> '/' !in p
    ensures SafeParts(parts) <==>
              && SurfaceLegal(Join(parts)) && !HasDrive(Join(parts)) && ComponentsLegal(parts)
              && Kept(parts) != [] && Join(parts)[|Join(parts)| - 1] != '/'
  {
    hide Join, Kept, ComponentsLegal, IsComponent, IsDrive, HasDrive, IsAscii;
    PartsChars(parts);
    JoinEnds(parts);
    KeptSome(parts);
    if parts[0] != "" {
      JoinLast(parts);
    }
  }

  lemma KeyUnfolds(name: string)
    ensures Key(name).Some? <==>
              && SurfaceLegal(name) && !HasDrive(name) && ComponentsLegal(Split(name))
              && Kept(Split(name)) != [] && name[|name| - 1] != '/'
    ensures Key(name).Some? ==> Key(name) == Some(Join(Kept(Split(name))))
  {
    hide Join, Split, Kept, ComponentsLegal, HasDrive;
  }

  /** A name joined from any components is accepted exactly when they are safe; its key joins those that stay. */
  lemma KeyOfParts(parts: seq<string>)
    requires parts != [] && forall p :: p in parts ==> '/' !in p
    ensures Key(Join(parts)) == if SafeParts(parts) then Some(Join(Kept(parts))) else None
  {
    hide Key, SafeParts, Join, Split, Kept, SurfaceLegal, ComponentsLegal, HasDrive;
    SplitJoin(parts);
    SafeName(parts);
    KeyUnfolds(Join(parts));
  }

  // ----- accepted package entries

  const MANIFEST_ENTRY: string := "manifest.json"
  const PUBLIC_KEY_ENTRY: string := "public_key.ed25519"
  const SIGNATURE_ENTRY: string := "signature.ed25519"
  const FIXED_ENTRIES: set<string> :=
    {MANIFEST_ENTRY, "mod.elf", "plugin.wps", PUBLIC_KEY_ENTRY, SIGNATURE_ENTRY}

  predicate IsUi(name: string) {
    "ui/" <= name
  }

  predicate Allowed(name: string) {
    name in FIXED_ENTRIES || IsUi(name)
  }

  /** The name tests of the package reader, duplicates aside. */
  predicate NameAccepted(name: string) {
    && Key(name).Some?
    && (IsUi(name) ==> Key(name).value == Lower(name))
    && Allowed(name)
  }

  predicate Plain(c: char) {
    'a' <= c <= 'z' || '0' <= c <= '9' || c == '.' || c == '_'
  }

  /** Lower-case words of letters, digits, dots and underscores, longer than two characters. */
  predicate PlainWord(name: string) {
    2 < |name| <= 255 && forall i :: 0 <= i < |name| ==> Plain(name[i])
  }

  lemma FixedArePlain()
    ensures PlainWord("manifest.json") && PlainWord("mod.elf") && PlainWord("plugin.wps")
    ensures PlainWord("public_key.ed25519") && PlainWord(SIGNATURE_ENTRY)
  {
  }

  lemma PlainSurface(name: string)
    requires PlainWord(name)
    ensures '/' !in name && Lower(name) == name && !IsUi(name)
    ensures SurfaceLegal(name) && !HasDrive(name) && ComponentLegal(name) && !Dropped(name)
  {
    PlainExcludes(name, '/');
    PlainExcludes(name, '\\');
    PlainExcludes(name, '\0');
    assert Plain(name[0]) && Plain(name[1]) && Plain(name[2]);
    assert Lower(name) == name;
  }

  lemma PlainExcludes(name: string, c: char)
    requires PlainWord(name) && !Plain(c)
    ensures c !in name
  {
  }

  /** Every accepted name is its own key up to case. */
  lemma AcceptedKey(name: string)
    requires NameAccepted(name)
    ensures Key(name).value == Lower(name)
  {
    if !IsUi(name) {
      FixedArePlain();
      PlainSurface(name);
      SplitWord(name);
      KeyIsLowerName(name);
    }
  }

  lemma FixedAccepted(name: string)
    requires name in FIXED_ENTRIES
    ensures NameAccepted(name) && Key(name) == Some(name) && !IsUi(name)
  {
    FixedArePlain();
    PlainSurface(name);
    hide FIXED_ENTRIES;
    WordKey(name);
  }

  /** A single legal component is its own key, in lower case. */
  lemma WordKey(name: string)
    requires '/' !in name && SurfaceLegal(name) && !HasDrive(name) && ComponentLegal(name) && !Dropped(name)
    ensures Key(name) == Some(Lower(name))
  {
    SplitWord(name);
    KeptNext([], name);
    assert [] + [name] == [name];
    hide Split, Lower, ComponentLegal, Dropped, SurfaceLegal, HasDrive;
  }

  // ----- the running set of normalised keys

  ghost predicate DistinctKeys(names: seq<string>, k: nat)
    requires k <= |names|
  {
    forall i, j :: 0 <= i < j < k ==> Key(names[i]) != Key(names[j])
  }

  /** `normalized` holds exactly the keys of the first `k` names. */
  ghost predicate KeysAre(normalized: set<string>, names: seq<string>, k: nat)
    requires k <= |names|
  {
    forall n :: n in normalized <==> exists i :: 0 <= i < k && Key(names[i]) == Some(n)
  }

  /** One step: the keys stay distinct exactly when the next one is not in the set. */
  lemma NextKey(normalized: set<string>, names: seq<string>, k: nat, key: string)
    requires k < |names| && KeysAre(normalized, names, k) && DistinctKeys(names, k)
    requires Key(names[k]) == Some(key)
    ensures DistinctKeys(names, k + 1) <==> key !in normalized
    ensures key in normalized ==> !DistinctKeys(names, |names|)
    ensures KeysAre(normalized + {key}, names, k + 1)
  {
    hide Key;
  }
}
