/**
 * The service-provider index a deployment builds from its roots: each file
 * under `META-INF/services` whose name is a valid dotted name is a service
 * type, and each of its lines, stripped of a `#` comment and trimmed, names
 * a provider class. A root is the list of its service files, in directory
 * order; reading the files is outside the model.
 */
module ServiceLoader {
  import opened Wrappers
  import opened Text
  import opened Seqs

  datatype ServiceFile = ServiceFile(name: string, lines: seq<string>)

  type Root = seq<ServiceFile>

  /** The index: service type to provider class names in the order they were met. */
  type Services = map<string, seq<string>>

  // ---------------------------------------------------------------- names

  /** The character class `[a-zA-Z0-9_]`. */
  predicate IsWordChar(c: char) {
    ('a' <= c <= 'z') || ('A' <= c <= 'Z') || ('0' <= c <= '9') || c == '_'
  }

  /** `[a-zA-Z0-9_]+`. */
  predicate IsWord(s: string) {
    s != [] && forall i :: 0 <= i < |s| ==> IsWordChar(s[i])
  }

  /**
   * A full match of `(?:[a-zA-Z0-9_]+\.)*[a-zA-Z0-9_]+`. A word never holds
   * a dot, so the pattern can only split at the first dot: a word, or a word,
   * a dot and again a valid name.
   */
  predicate ValidName(s: string)
    ensures ValidName(s) ==> s != [] && IsWordChar(s[0]) && IsWordChar(s[|s| - 1])
    decreases |s|
  {
    match IndexOf(s, '.')
    case None => IsWord(s)
    case Some(i) => IsWord(s[..i]) && ValidName(s[i + 1..])
  }

  /** The same language described character by character. */
  predicate DotSeparated(s: string) {
    && s != [] && s[0] != '.' && s[|s| - 1] != '.'
    && (forall i :: 0 <= i < |s| ==> IsWordChar(s[i]) || s[i] == '.')
    && (forall i :: 0 <= i < |s| - 1 ==> s[i] == '.' ==> s[i + 1] != '.')
  }

  /** A word, a dot and a dot-separated name form a dot-separated name. */
  lemma DotSeparatedJoin(word: string, rest: string)
    requires IsWord(word) && DotSeparated(rest)
    ensures DotSeparated(word + "." + rest)
  {
    var s := word + "." + rest;
    var i := |word|;
    assert forall j :: 0 <= j < i ==> s[j] == word[j];
    assert forall j :: 0 <= j < |rest| ==> s[i + 1 + j] == rest[j];
    forall j | 0 <= j < |s| - 1 && s[j] == '.' ensures s[j + 1] != '.' {
      if j == i {
        assert s[j + 1] == rest[0];
      } else {
        assert rest[j - i - 1] == '.';
      }
    }
  }

  /** A dot-separated name splits at its first dot into a word and a dot-separated name. */
  lemma DotSeparatedSplit(s: string, i: nat)
    requires DotSeparated(s) && i < |s| && s[i] == '.' && '.' !in s[..i]
    ensures IsWord(s[..i]) && DotSeparated(s[i + 1..])
  {
    var word := s[..i];
    var rest := s[i + 1..];
    assert i > 0;
    assert forall j :: 0 <= j < i ==> s[j] == word[j] && s[j] != '.';
    assert forall j :: 0 <= j < |rest| ==> s[i + 1 + j] == rest[j];
    forall j | 0 <= j < |rest| - 1 && rest[j] == '.' ensures rest[j + 1] != '.' {
      assert s[i + 1 + j] == '.';
    }
  }

  /** Every name the pattern accepts is non-empty words joined by single dots. */
  lemma {:induction false} ValidNameDotSeparated(s: string)
    requires ValidName(s)
    ensures DotSeparated(s)
    decreases |s|
  {
    match IndexOf(s, '.')
    case None =>
      WordDotSeparated(s);
    case Some(i) =>
      ValidNameDotSeparated(s[i + 1..]);
      DotSeparatedAt(s, i);
  }

  /** A single word is a dot-separated name. */
  lemma WordDotSeparated(s: string)
    requires IsWord(s)
    ensures DotSeparated(s)
  {
  }

  /** A word, the dot at `i` and a dot-separated name after it make `s` dot-separated. */
  lemma DotSeparatedAt(s: string, i: nat)
    requires i < |s| && s[i] == '.' && IsWord(s[..i]) && DotSeparated(s[i + 1..])
    ensures DotSeparated(s)
  {
    DotSeparatedJoin(s[..i], s[i + 1..]);
    assert s == s[..i] + "." + s[i + 1..];
  }

  /** Every string of non-empty words joined by single dots is accepted by the pattern. */
  lemma {:induction false} DotSeparatedValidName(s: string)
    requires DotSeparated(s)
    ensures ValidName(s)
    decreases |s|
  {
    match IndexOf(s, '.')
    case None =>
    case Some(i) =>
      DotSeparatedSplit(s, i);
      DotSeparatedValidName(s[i + 1..]);
  }

  /** The pattern accepts exactly non-empty words joined by single dots. */
  lemma ValidNameIsDotSeparated(s: string)
    ensures ValidName(s) <==> DotSeparated(s)
  {
    if ValidName(s) { ValidNameDotSeparated(s); }
    if DotSeparated(s) { DotSeparatedValidName(s); }
  }

  // ---------------------------------------------------------------- lines

  /** The class name a line holds: the text before its first `#`, trimmed. */
  function ClassNameOf(line: string): (name: string)
    ensures '#' !in name
    ensures Trimmed(name)
  {
    match IndexOf(line, '#')
    case None =>
      TrimKeepsOut(line, '#');
      Trim(line)
    case Some(i) =>
      TrimKeepsOut(line[..i], '#');
      Trim(line[..i])
  }

  /** A comment never contributes to the class name, and a line without one is only trimmed. */
  lemma CommentIgnored(code: string, comment: string)
    requires '#' !in code
    ensures ClassNameOf(code) == Trim(code)
    ensures ClassNameOf(code + "#" + comment) == Trim(code)
  {
    var line := code + "#" + comment;
    assert line[|code|] == '#';
    assert line[..|code|] == code;
    assert IndexOf(line, '#') == Some(|code|);
  }

  /** What an indexed class name looks like: non-empty, comment-free, trimmed. */
  predicate ClassName(name: string) {
    name != "" && '#' !in name && Trimmed(name)
  }

  /** The class names of a file's lines, in line order, skipping lines that name nothing. */
  function ClassNames(lines: seq<string>): (names: seq<string>)
    ensures |names| <= |lines|
    ensures forall name :: name in names ==> ClassName(name)
    ensures forall line :: line in lines && ClassNameOf(line) != "" ==> ClassNameOf(line) in names
  {
    if lines == [] then []
    else
      var name := ClassNameOf(lines[0]);
      var rest := ClassNames(lines[1..]);
      assert lines == [lines[0]] + lines[1..];
      if name == "" then rest else [name] + rest
  }

  /** One line gives its class name, or nothing when the name is empty. */
  lemma ClassNamesOfLine(line: string)
    ensures ClassNames([line]) == if ClassNameOf(line) == "" then [] else [ClassNameOf(line)]
  {
    assert [line][1..] == [];
  }

  /** A line without a comment is only trimmed: padding around a name is dropped. */
  lemma PlainLineKept(code: string)
    requires '#' !in code && Trim(code) != ""
    ensures ClassNames([code]) == [Trim(code)]
  {
    CommentIgnored(code, "");
    ClassNamesOfLine(code);
  }

  /** A blank line, or one holding only a comment, names nothing. */
  lemma BlankLineSkipped(code: string, comment: string)
    requires '#' !in code && Trim(code) == ""
    ensures ClassNames([code]) == [] && ClassNames([code + "#" + comment]) == []
  {
    CommentIgnored(code, comment);
    ClassNamesOfLine(code);
    ClassNamesOfLine(code + "#" + comment);
  }

  lemma {:induction false} ClassNamesAppend(a: seq<string>, b: seq<string>)
    ensures ClassNames(a + b) == ClassNames(a) + ClassNames(b)
  {
    if a == [] {
      assert a + b == b;
    } else {
      var name := ClassNameOf(a[0]);
      var head := if name == "" then [] else [name];
      assert (a + b)[0] == a[0];
      assert (a + b)[1..] == a[1..] + b;
      assert ClassNames(a + b) == head + ClassNames(a[1..] + b);
      ClassNamesAppend(a[1..], b);
      AppendAssoc(head, ClassNames(a[1..]), ClassNames(b));
    }
  }

  /** Class names are not checked against the name pattern: any line naming something is indexed. */
  lemma ClassNameKept(name: string, comment: string)
    requires ClassName(name)
    ensures ClassNames([name + "#" + comment]) == [name]
  {
    CommentIgnored(name, comment);
    assert ClassNames([name + "#" + comment]) == [name] + ClassNames([]);
  }

  /** A name the pattern rejects is still indexed. */
  lemma InvalidNamesKept()
    ensures !ValidName("a-b") && ClassNames(["a-b#c"]) == ["a-b"]
  {
    var name := "a-b";
    assert !ValidName(name) by {
      assert IndexOf(name, '.') == None;
      assert !IsWordChar(name[1]);
    }
    assert ClassNames(["a-b#c"]) == [name] by {
      assert Trimmed(name);
      ClassNameKept(name, "c");
      assert name + "#" + "c" == "a-b#c";
    }
  }

  // ---------------------------------------------------------------- roots

  /** The entry for `service` so far; absent means nothing yet. */
  function Existing(found: Services, service: string): seq<string> {
    if service in found then found[service] else []
  }

  /** The root holds a file for `service`, and the name is one the pattern accepts. */
  predicate Declares(root: Root, service: string) {
    ValidName(service) && exists i :: 0 <= i < |root| && root[i].name == service
  }

  /** What one root contributes to `service`: the class names of its files of that name, in order. */
  function Collected(root: Root, service: string): (names: seq<string>)
    ensures names != [] ==> Declares(root, service)
  {
    if root == [] then []
    else
      assert forall i :: 1 <= i < |root| ==> root[i] == root[1..][i - 1];
      (if root[0].name == service && ValidName(service) then ClassNames(root[0].lines) else [])
        + Collected(root[1..], service)
  }

  lemma DeclaresStep(root: Root, service: string)
    requires root != []
    ensures Declares(root, service) <==> (ValidName(service) && service == root[0].name) || Declares(root[1..], service)
  {
    assert forall i :: 1 <= i < |root| ==> root[i] == root[1..][i - 1];
  }

  /** One service file entered into the index: a valid name gets its class names appended. */
  function Enter(file: ServiceFile, found: Services): Services {
    if ValidName(file.name) then found[file.name := Existing(found, file.name) + ClassNames(file.lines)]
    else found
  }

  /** Entering the first file, then the rest of the root, accounts for the whole root. */
  lemma EnterStep(root: Root, found: Services, k: string)
    requires root != []
    ensures (k in Enter(root[0], found) || Declares(root[1..], k)) <==> (k in found || Declares(root, k))
    ensures Existing(Enter(root[0], found), k) + Collected(root[1..], k) == Existing(found, k) + Collected(root, k)
  {
    DeclaresStep(root, k);
    var own := if k == root[0].name && ValidName(k) then ClassNames(root[0].lines) else [];
    assert Existing(Enter(root[0], found), k) == Existing(found, k) + own;
    AppendAssoc(Existing(found, k), own, Collected(root[1..], k));
  }

  /**
   * `processRoot`: every service file with a valid name gets an entry, empty
   * or not, and its class names are appended to whatever the entry held.
   */
  function ProcessRoot(root: Root, found: Services): (r: Services)
    ensures forall k :: k in r <==> k in found || Declares(root, k)
    ensures forall k :: k in r ==> r[k] == Existing(found, k) + Collected(root, k)
    decreases |root|
  {
    if root == [] then found
    else
      var r := ProcessRoot(root[1..], Enter(root[0], found));
      forall k
        ensures (k in Enter(root[0], found) || Declares(root[1..], k)) <==> (k in found || Declares(root, k))
        ensures Existing(Enter(root[0], found), k) + Collected(root[1..], k) == Existing(found, k) + Collected(root, k)
      {
        EnterStep(root, found, k);
      }
      r
  }

  /** Files whose names the pattern rejects contribute nothing, not even an entry. */
  lemma InvalidFileIgnored(file: ServiceFile, root: Root, found: Services)
    requires !ValidName(file.name)
    ensures ProcessRoot([file] + root, found) == ProcessRoot(root, found)
  {
    assert ([file] + root)[1..] == root;
  }

  /** A valid service file with no class names still gets its (empty) entry. */
  lemma EmptyServiceFileListed(name: string, lines: seq<string>)
    requires ValidName(name) && ClassNames(lines) == []
    ensures var r := ProcessRoot([ServiceFile(name, lines)], map[]);
      name in r && r[name] == []
  {
    var root := [ServiceFile(name, lines)];
    assert root[0].name == name;
    assert Collected(root, name) == ClassNames(lines) + Collected([], name);
  }

  // ---------------------------------------------------------------- the deployment

  /** The roots in the order `deploy` visits them: the deployment root, then the resource roots. */
  function RootOrder(deploymentRoot: Option<Root>, resourceRoots: Option<seq<Root>>): seq<Root> {
    (if deploymentRoot.Some? then [deploymentRoot.value] else [])
      + (if resourceRoots.Some? then resourceRoots.value else [])
  }

  predicate DeclaredAny(roots: seq<Root>, service: string) {
    exists j :: 0 <= j < |roots| && Declares(roots[j], service)
  }

  /** Everything the roots contribute to `service`, root by root. */
  function CollectedAll(roots: seq<Root>, service: string): (names: seq<string>)
    ensures !DeclaredAny(roots, service) ==> names == []
  {
    if roots == [] then []
    else CollectedAll(roots[..|roots| - 1], service) + Collected(roots[|roots| - 1], service)
  }

  /** One more root processed extends the index by that root's contributions. */
  lemma ProcessNextRoot(roots: seq<Root>, root: Root, found: Services)
    requires forall k :: k in found <==> DeclaredAny(roots, k)
    requires forall k :: k in found ==> found[k] == CollectedAll(roots, k)
    ensures var r := ProcessRoot(root, found);
      && (forall k :: k in r <==> DeclaredAny(roots + [root], k))
      && (forall k :: k in r ==> r[k] == CollectedAll(roots + [root], k))
  {
    var all := roots + [root];
    assert all[..|all| - 1] == roots && all[|all| - 1] == root;
    forall k ensures DeclaredAny(all, k) <==> DeclaredAny(roots, k) || Declares(root, k) {
      if DeclaredAny(all, k) {
        var j :| 0 <= j < |all| && Declares(all[j], k);
        if j < |roots| { assert all[j] == roots[j]; }
      }
      if DeclaredAny(roots, k) {
        var j :| 0 <= j < |roots| && Declares(roots[j], k);
        assert all[j] == roots[j];
      }
    }
  }

  /**
   * `deploy`: the index over all roots, deployment root first. A service type
   * met in several roots accumulates one list, in root order.
   */
  method Deploy(deploymentRoot: Option<Root>, resourceRoots: Option<seq<Root>>) returns (services: Services)
    ensures var roots := RootOrder(deploymentRoot, resourceRoots);
      && (forall k :: k in services <==> DeclaredAny(roots, k))
      && (forall k :: k in services ==> services[k] == CollectedAll(roots, k))
  {
    var visited: seq<Root> := [];
    services := map[];
    if deploymentRoot.Some? {
      ProcessNextRoot(visited, deploymentRoot.value, services);
      services := ProcessRoot(deploymentRoot.value, services);
      visited := visited + [deploymentRoot.value];
    }
    var resources := if resourceRoots.Some? then resourceRoots.value else [];
    var i := 0;
    while i < |resources|
      invariant 0 <= i <= |resources|
      invariant visited == RootOrder(deploymentRoot, None) + resources[..i]
      invariant forall k :: k in services <==> DeclaredAny(visited, k)
      invariant forall k :: k in services ==> services[k] == CollectedAll(visited, k)
    {
      ProcessNextRoot(visited, resources[i], services);
      services := ProcessRoot(resources[i], services);
      visited := visited + [resources[i]];
      assert resources[..i + 1] == resources[..i] + [resources[i]];
      i := i + 1;
    }
    assert resources[..i] == resources;
    assert visited == RootOrder(deploymentRoot, resourceRoots);
  }
}
