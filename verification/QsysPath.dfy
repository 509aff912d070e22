/** The QSYS path names of src/ifs/QSYSObjectPathName.js: building them from components and parsing them. */
module QsysPath {
  import opened Outcome
  import opened Text

  /** The components of a path name, as the source's private fields. */
  datatype Parts = Parts(aspName: string, library: string, object_: string, member: string, objectType: string)

  // ---- Names ----

  /** Upper-cases outside double quotes and drops the quotes. */
  function Unquote(name: string, inQuotes: bool): (r: string) {
    if name == "" then ""
    else if name[0] == '"' then Unquote(name[1..], !inQuotes)
    else [if inQuotes then name[0] else UpperChar(name[0])] + Unquote(name[1..], inQuotes)
  }

  function QsysName(name: string): (r: string) {
    if '"' !in name then Upper(name) else Unquote(name, false)
  }

  method ToQSYSName(name: string) returns (result: string)
    ensures result == QsysName(name)
  {
    if '"' !in name {
      return Upper(name);
    }
    hide Unquote;
    result := "";
    var inQuotes := false;
    assert name[0..] == name;
    for i := 0 to |name|
      invariant result + Unquote(name[i..], inQuotes) == Unquote(name, false)
    {
      var ch := name[i];
      UnquoteNext(name, i, inQuotes);
      if ch == '"' {
        inQuotes := !inQuotes;
      } else if inQuotes {
        result := result + [ch];
      } else {
        result := result + [UpperChar(ch)];
      }
    }
    UnquoteNothing(inQuotes);
    assert name[|name|..] == "";
  }

  lemma UnquoteNext(name: string, i: nat, inQuotes: bool)
    requires i < |name|
    ensures Unquote(name[i..], inQuotes)
         == if name[i] == '"' then Unquote(name[i + 1..], !inQuotes)
            else [if inQuotes then name[i] else UpperChar(name[i])] + Unquote(name[i + 1..], inQuotes)
  {
    hide UpperChar;
    assert name[i..][1..] == name[i + 1..];
  }

  lemma UnquoteNothing(inQuotes: bool)
    ensures Unquote("", inQuotes) == ""
  {}

  /** Without quotes both branches agree. */
  lemma {:induction false} UnquotedIsUpper(name: string)
    requires '"' !in name
    ensures Unquote(name, false) == Upper(name)
  {
    if name != "" {
      UnquotedIsUpper(name[1..]);
      assert Upper(name) == [UpperChar(name[0])] + Upper(name[1..]);
    }
  }

  // ---- Special values ----

  function LibraryPathName(name: string): (r: string) {
    if name == "*LIBL" then "%LIBL%"
    else if name == "*CURLIB" then "%CURLIB%"
    else if name == "*USRLIBL" then "%USRLIBL%"
    else if name == "*ALL" then "%ALL%"
    else if name == "*ALLUSR" then "%ALLUSR%"
    else name
  }

  function LibraryName(pathName: string): (r: string) {
    if pathName == "%LIBL%" then "*LIBL"
    else if pathName == "%CURLIB%" then "*CURLIB"
    else if pathName == "%USRLIBL%" then "*USRLIBL"
    else if pathName == "%ALL%" then "*ALL"
    else if pathName == "%ALLUSR%" then "*ALLUSR"
    else pathName
  }

  function ObjectPathName(name: string): (r: string) {
    if name == "*ALL" then "%ALL%" else name
  }

  function ObjectName(pathName: string): (r: string) {
    if pathName == "%ALL%" then "*ALL" else pathName
  }

  function MemberPathName(name: string): (r: string) {
    if name == "*FIRST" then "%FIRST%"
    else if name == "*LAST" then "%LAST%"
    else if name == "*FILE" then "%FILE%"
    else if name == "*ALL" then "%ALL%"
    else if name == "*NONE" then "%NONE%"
    else name
  }

  function MemberName(pathName: string): (r: string) {
    if pathName == "%FIRST%" then "*FIRST"
    else if pathName == "%LAST%" then "*LAST"
    else if pathName == "%FILE%" then "*FILE"
    else if pathName == "%ALL%" then "*ALL"
    else if pathName == "%NONE%" then "*NONE"
    else pathName
  }

  /** The special values and the form each takes in a path. */
  lemma SpecialValues()
    ensures LibraryPathName("*LIBL") == "%LIBL%" && LibraryName("%LIBL%") == "*LIBL"
    ensures LibraryPathName("*CURLIB") == "%CURLIB%" && LibraryName("%CURLIB%") == "*CURLIB"
    ensures LibraryPathName("*USRLIBL") == "%USRLIBL%" && LibraryName("%USRLIBL%") == "*USRLIBL"
    ensures LibraryPathName("*ALL") == "%ALL%" && LibraryName("%ALL%") == "*ALL"
    ensures LibraryPathName("*ALLUSR") == "%ALLUSR%" && LibraryName("%ALLUSR%") == "*ALLUSR"
    ensures ObjectPathName("*ALL") == "%ALL%" && ObjectName("%ALL%") == "*ALL"
    ensures MemberPathName("*FIRST") == "%FIRST%" && MemberName("%FIRST%") == "*FIRST"
    ensures MemberPathName("*LAST") == "%LAST%" && MemberName("%LAST%") == "*LAST"
    ensures MemberPathName("*FILE") == "%FILE%" && MemberName("%FILE%") == "*FILE"
    ensures MemberPathName("*ALL") == "%ALL%" && MemberName("%ALL%") == "*ALL"
    ensures MemberPathName("*NONE") == "%NONE%" && MemberName("%NONE%") == "*NONE"
  {}

  /** A special value is written without its star between percent signs, and any other name as it is. */
  lemma PathNameIs(name: string)
    ensures LibraryPathName(name) == name || (name != "" && name[0] == '*' && LibraryPathName(name) == "%" + name[1..] + "%")
    ensures MemberPathName(name) == name || (name != "" && name[0] == '*' && MemberPathName(name) == "%" + name[1..] + "%")
    ensures ObjectPathName(name) == name || (name != "" && name[0] == '*' && ObjectPathName(name) == "%" + name[1..] + "%")
  {
    assert "*LIBL"[1..] == "LIBL" && "*CURLIB"[1..] == "CURLIB" && "*USRLIBL"[1..] == "USRLIBL" && "*ALLUSR"[1..] == "ALLUSR";
    assert "*ALL"[1..] == "ALL" && "*FIRST"[1..] == "FIRST" && "*LAST"[1..] == "LAST" && "*FILE"[1..] == "FILE" && "*NONE"[1..] == "NONE";
  }

  /** A library name comes back from its path form exactly when it is not itself the path form of a special value. */
  lemma LibraryComesBackIff(name: string)
    ensures LibraryName(LibraryPathName(name)) == name <==> name !in {"%LIBL%", "%CURLIB%", "%USRLIBL%", "%ALL%", "%ALLUSR%"}
  {}

  lemma MemberComesBackIff(name: string)
    ensures MemberName(MemberPathName(name)) == name <==> name !in {"%FIRST%", "%LAST%", "%FILE%", "%ALL%", "%NONE%"}
  {}

  /** Only names that start with a percent sign are looked up. */
  lemma PlainNamesStay(name: string)
    requires name == "" || name[0] != '%'
    ensures LibraryName(name) == name && MemberName(name) == name
  {}

  // ---- Building ----

  function BuildPathName(c: Parts): (path: string) {
    if c.library == "" || c.objectType == "" || (c.objectType == "MBR" && c.member == "") then ""
    else
      (if c.aspName != "" then "/" + c.aspName else "") + "/QSYS.LIB" +
      (if c.library != "QSYS" then "/" + LibraryPathName(c.library) + ".LIB" else "") +
      if c.object_ == "" then ""
      else "/" + ObjectPathName(c.object_) +
           if c.member != "" then ".FILE/" + MemberPathName(c.member) + ".MBR" else "." + c.objectType
  }

  /** The path of a member and of another object in a library, with and without an auxiliary storage pool. */
  lemma PathsAre(asp: string, library: string, object_: string, member: string, type_: string)
    requires library !in {"", "QSYS"} && object_ != "" && member != "" && type_ !in {"", "MBR"}
    requires library[0] != '*' && object_[0] != '*' && member[0] != '*'
    ensures BuildPathName(Parts("", library, object_, member, "MBR"))
         == "/QSYS.LIB" + ("/" + library + ".LIB") + ("/" + object_ + (".FILE/" + member + ".MBR"))
    ensures BuildPathName(Parts("", library, object_, "", type_)) == "/QSYS.LIB" + ("/" + library + ".LIB") + ("/" + object_ + ("." + type_))
    ensures BuildPathName(Parts("", "QSYS", object_, "", type_)) == "/QSYS.LIB" + ("/" + object_ + ("." + type_))
    ensures asp != "" ==> BuildPathName(Parts(asp, "QSYS", object_, "", type_)) == "/" + asp + "/QSYS.LIB" + ("/" + object_ + ("." + type_))
  {
    PathNameIs(library);
    PathNameIs(object_);
    PathNameIs(member);
    hide LibraryPathName, ObjectPathName, MemberPathName;
    assert "" + "/QSYS.LIB" == "/QSYS.LIB" && "/QSYS.LIB" + "" == "/QSYS.LIB";
  }

  // ---- Parsing ----

  predicate CharIs(s: string, i: nat, c: char) {
    i < |s| && s[i] == c
  }

  /** Everything from the object's name on. */
  function ParseObject(p: string, asp: string, library: string, from: nat): (r: Result<Parts>)
    requires from <= |p|
  {
    if |library| > 10 then Err(InvalidPath) else
      var lastDot := LastIndexOf(p, ".", |p|);
      if lastDot < from || |p| - lastDot - 1 > 6 then Err(InvalidPath) else
        var objectType := p[lastDot + 1..];
        if objectType == "MBR" then ParseMember(p, asp, library, from, lastDot)
        else if lastDot - from > 10 then Err(InvalidPath)
        else Ok(Parts(asp, library, ObjectName(p[from..lastDot]), "", objectType))
  }

  function ParseMember(p: string, asp: string, library: string, from: nat, lastDot: nat): (r: Result<Parts>)
    requires from <= lastDot < |p|
  {
    var fileIdx := LastIndexOf(p, ".FILE/", lastDot);
    if fileIdx == -1 || fileIdx < from then Err(InvalidPath) else
      var memberStart := fileIdx + 6;
      if lastDot < memberStart || lastDot - memberStart > 10 then Err(InvalidPath)
      else if fileIdx - from > 10 then Err(InvalidPath)
      else Ok(Parts(asp, library, ObjectName(p[from..fileIdx]), MemberName(p[memberStart..lastDot]), "MBR"))
  }

  /** The library segment, which library QSYS does without. */
  function ParseLibrary(p: string, asp: string, from: nat): (r: Result<Parts>)
    requires from <= |p|
  {
    var libSuffix := IndexOf(p, ".LIB/", from);
    if libSuffix > from then
      if p[from..libSuffix] == "QSYS" then Err(InvalidPath)
      else ParseObject(p, asp, LibraryName(p[from..libSuffix]), libSuffix + 5)
    else ParseObject(p, asp, "QSYS", from)
  }

  /** The components of an upper-cased path. */
  function ParseUpper(p: string): (r: Result<Parts>) {
    var qsysIdx := IndexOf(p, "/QSYS.LIB", 0);
    if qsysIdx == -1 then Err(NotQsys) else
      var asp := if qsysIdx > 0 then p[1..qsysIdx] else "";
      if p[qsysIdx..] == "/QSYS.LIB" || p[qsysIdx..] == "/QSYS.LIB/" then Ok(Parts(asp, "QSYS", "", "", "LIB"))
      else ParseLibrary(p, asp, if CharIs(p, qsysIdx + 10, '/') then qsysIdx + 11 else qsysIdx + 10)
  }

  function ParsePath(path: string): (r: Result<Parts>) {
    if path == "" then Err(InvalidPath) else ParseUpper(QsysName(path))
  }

  /** `validateName`. */
  predicate NameFits(name: string, maxLen: nat) {
    1 <= |name| <= maxLen
  }

  /** What the constructor is called with when it is given components. */
  datatype Arguments =
    | Object(library: string, object_: string, type_: string)
    | Member(library: string, object_: string, member: string, type_: string)
    | MemberOnAsp(asp: string, library: string, object_: string, member: string, type_: string)
  {
    /** The names have their lengths, and a member has its type. */
    predicate Valid() {
      && NameFits(library, 10) && NameFits(object_, 10)
      && (Object? ==> NameFits(type_, 6))
      && (!Object? ==> NameFits(member, 10) && Upper(type_) == "MBR")
      && (MemberOnAsp? ==> NameFits(asp, 10))
    }

    /** The components they stand for: names folded, an ASP as it is. */
    function Folded(): (c: Parts) {
      Parts(if MemberOnAsp? then asp else "", QsysName(library), QsysName(object_), if Object? then "" else QsysName(member), Upper(type_))
    }
  }

  class QSYSObjectPathName {
    var path: string
    var libraryName: string
    var objectName: string
    var memberName: string
    var objectType: string
    var aspName: string

    constructor ()
      ensures path == "" && Fields() == Parts("", "", "", "", "")
    {
      path, libraryName, objectName, memberName, objectType, aspName := "", "", "", "", "", "";
    }

    ghost function Fields(): (c: Parts)
      reads this
    {
      Parts(aspName, libraryName, objectName, memberName, objectType)
    }

    method Build()
      modifies this`path
      ensures path == BuildPathName(Fields())
    {
      path := BuildPathName(Parts(aspName, libraryName, objectName, memberName, objectType));
    }

    /** The constructor with three, four or five arguments. */
    method Assign(args: Arguments) returns (r: Result<()>)
      requires Fields() == Parts("", "", "", "", "")
      modifies this
      ensures r == if args.Valid() then Ok(()) else Err(OutOfRange)
      ensures r.Err? ==> Fields() == Parts("", "", "", "", "") && path == old(path)
      ensures r.Ok? ==> Fields() == args.Folded() && path == BuildPathName(args.Folded())
    {
      hide BuildPathName, QsysName;
      if !args.Valid() {
        return Err(OutOfRange);
      }
      match args {
        case Object(library, object_, type_) =>
          libraryName := ToQSYSName(library);
          objectName := ToQSYSName(object_);
          objectType := Upper(type_);
        case Member(library, object_, member, _) =>
          libraryName := ToQSYSName(library);
          objectName := ToQSYSName(object_);
          memberName := ToQSYSName(member);
          objectType := "MBR";
        case MemberOnAsp(asp, library, object_, member, _) =>
          aspName := asp;
          libraryName := ToQSYSName(library);
          objectName := ToQSYSName(object_);
          memberName := ToQSYSName(member);
          objectType := "MBR";
      }
      Build();
      r := Ok(());
    }

    /** Fills the fields of a new object from a path, or fails. */
    method Parse(text: string) returns (r: Result<()>)
      requires Fields() == Parts("", "", "", "", "")
      modifies this
      ensures r.Ok? <==> ParsePath(text).Ok?
      ensures r.Err? ==> r.error == ParsePath(text).error
      ensures r.Ok? ==> Fields() == ParsePath(text).value && path == BuildPathName(Fields())
    {
      hide ParseLibrary, BuildPathName, IndexOf, QsysName;
      if text == "" {
        return Err(InvalidPath);
      }
      var upperPath := ToQSYSName(text);
      var qsysIdx := IndexOf(upperPath, "/QSYS.LIB", 0);
      if qsysIdx == -1 {
        return Err(NotQsys);
      }
      if qsysIdx > 0 {
        aspName := upperPath[1..qsysIdx];
      }
      var afterQsys := upperPath[qsysIdx..];
      if afterQsys == "/QSYS.LIB" || afterQsys == "/QSYS.LIB/" {
        libraryName, objectType := "QSYS", "LIB";
        Build();
        return Ok(());
      }
      var currentOffset := qsysIdx + 10;
      if CharIs(upperPath, currentOffset, '/') {
        currentOffset := currentOffset + 1;
      }
      r := ParseFrom(upperPath, currentOffset);
    }

    method ParseFrom(upperPath: string, start: nat) returns (r: Result<()>)
      requires start <= |upperPath| && libraryName == objectName == memberName == objectType == ""
      modifies this
      ensures var spec := ParseLibrary(upperPath, old(aspName), start);
              && (r.Ok? <==> spec.Ok?) && (r.Err? ==> r.error == spec.error)
              && (r.Ok? ==> Fields() == spec.value && path == BuildPathName(Fields()))
    {
      hide IndexOf, BuildPathName, LibraryName, ParseObject;
      var currentOffset := start;
      var libSuffix := IndexOf(upperPath, ".LIB/", currentOffset);
      if libSuffix > currentOffset {
        libraryName := upperPath[currentOffset..libSuffix];
        if libraryName == "QSYS" {
          return Err(InvalidPath);
        }
        if libraryName != "" && libraryName[0] == '%' {
          libraryName := LibraryName(libraryName);
        } else {
          PlainNamesStay(libraryName);
        }
        currentOffset := libSuffix + 5;
      } else {
        libraryName := "QSYS";
      }
      r := ParseObjectAt(upperPath, currentOffset);
    }

    method ParseObjectAt(upperPath: string, currentOffset: nat) returns (r: Result<()>)
      requires currentOffset <= |upperPath| && objectName == memberName == objectType == ""
      modifies this
      ensures var spec := ParseObject(upperPath, old(aspName), old(libraryName), currentOffset);
              && (r.Ok? <==> spec.Ok?) && (r.Err? ==> r.error == spec.error)
              && (r.Ok? ==> Fields() == spec.value && path == BuildPathName(Fields()))
    {
      hide LastIndexOf, BuildPathName, ObjectName, ParseMember;
      if |libraryName| > 10 {
        return Err(InvalidPath);
      }
      var lastDot := LastIndexOf(upperPath, ".", |upperPath|);
      if lastDot < currentOffset || |upperPath| - lastDot - 1 > 6 {
        return Err(InvalidPath);
      }
      objectType := upperPath[lastDot + 1..];
      if objectType == "MBR" {
        r := ParseMemberAt(upperPath, currentOffset, lastDot);
        return;
      }
      if lastDot - currentOffset > 10 {
        return Err(InvalidPath);
      }
      objectName := ObjectName(upperPath[currentOffset..lastDot]);
      Build();
      r := Ok(());
    }

    method ParseMemberAt(upperPath: string, currentOffset: nat, lastDot: nat) returns (r: Result<()>)
      requires currentOffset <= lastDot < |upperPath| && objectName == memberName == "" && objectType == "MBR"
      modifies this
      ensures var spec := ParseMember(upperPath, old(aspName), old(libraryName), currentOffset, lastDot);
              && (r.Ok? <==> spec.Ok?) && (r.Err? ==> r.error == spec.error)
              && (r.Ok? ==> Fields() == spec.value && path == BuildPathName(Fields()))
    {
      hide LastIndexOf, BuildPathName, ObjectName, MemberName;
      var fileIdx := LastIndexOf(upperPath, ".FILE/", lastDot);
      if fileIdx == -1 || fileIdx < currentOffset {
        return Err(InvalidPath);
      }
      var memberStart := fileIdx + 6;
      if lastDot < memberStart || lastDot - memberStart > 10 {
        return Err(InvalidPath);
      }
      memberName := upperPath[memberStart..lastDot];
      if memberName != "" && memberName[0] == '%' {
        memberName := MemberName(memberName);
      } else {
        PlainNamesStay(memberName);
      }
      if fileIdx - currentOffset > 10 {
        return Err(InvalidPath);
      }
      objectName := ObjectName(upperPath[currentOffset..fileIdx]);
      Build();
      r := Ok(());
    }
  }

  // ---- Round trip ----

  /** An upper-case name without the characters that structure a path. */
  ghost predicate PlainName(s: string) {
    s != "" && IsUpper(s) && '/' !in s && '.' !in s && '"' !in s
  }

  /** Components of an object or member within the length limits. */
  ghost predicate WellFormed(c: Parts) {
    && (c.aspName == "" || PlainName(c.aspName))
    && PlainName(c.library) && |LibraryName(LibraryPathName(c.library))| <= 10
    && PlainName(c.object_) && |ObjectPathName(c.object_)| <= 10
    && PlainName(c.objectType) && |c.objectType| <= 6
    && (c.objectType == "MBR" <==> c.member != "")
    && (c.member != "" ==> PlainName(c.member) && |MemberPathName(c.member)| <= 10)
  }

  /** No name is the percent form of a special value. */
  predicate NotPathForms(c: Parts) {
    && c.library !in {"%LIBL%", "%CURLIB%", "%USRLIBL%", "%ALL%", "%ALLUSR%"}
    && c.object_ != "%ALL%"
    && c.member !in {"%FIRST%", "%LAST%", "%FILE%", "%ALL%", "%NONE%"}
  }

  function AspText(c: Parts): (s: string) {
    if c.aspName != "" then "/" + c.aspName else ""
  }

  function LibraryText(c: Parts): (s: string) {
    if c.library != "QSYS" then "/" + LibraryPathName(c.library) + ".LIB" else ""
  }

  function TypeText(c: Parts): (s: string) {
    if c.member != "" then ".FILE/" + MemberPathName(c.member) + ".MBR" else "." + c.objectType
  }

  lemma PathFormsArePlain(c: Parts)
    requires WellFormed(c)
    ensures PlainName(LibraryPathName(c.library)) && PlainName(ObjectPathName(c.object_))
    ensures c.member != "" ==> PlainName(MemberPathName(c.member))
    ensures c.library != "QSYS" ==> LibraryPathName(c.library) != "QSYS"
  {
    hide PlainName, LibraryPathName, ObjectPathName, MemberPathName;
    LibraryFormIsPlain(c.library);
    ObjectFormIsPlain(c.object_);
    if c.member != "" {
      MemberFormIsPlain(c.member);
    }
  }

  lemma LibraryFormIsPlain(name: string)
    requires PlainName(name)
    ensures PlainName(LibraryPathName(name)) && (name != "QSYS" ==> LibraryPathName(name) != "QSYS")
  {
    PlainLibraryForms();
    hide PlainName;
  }

  lemma PlainLibraryForms()
    ensures PlainName("%LIBL%") && PlainName("%CURLIB%") && PlainName("%USRLIBL%") && PlainName("%ALL%") && PlainName("%ALLUSR%")
  {}

  lemma ObjectFormIsPlain(name: string)
    requires PlainName(name)
    ensures PlainName(ObjectPathName(name))
  {
    PlainLibraryForms();
    hide PlainName;
  }

  lemma MemberFormIsPlain(name: string)
    requires PlainName(name)
    ensures PlainName(MemberPathName(name))
  {
    PlainMemberForms();
    hide PlainName;
  }

  lemma PlainMemberForms()
    ensures PlainName("%FIRST%") && PlainName("%LAST%") && PlainName("%FILE%") && PlainName("%ALL%") && PlainName("%NONE%")
  {}

  predicate Ordinary(s: string) {
    IsUpper(s) && '"' !in s
  }

  lemma OrdinaryJoins(a: string, b: string)
    requires Ordinary(a) && Ordinary(b)
    ensures Ordinary(a + b)
  {}

  lemma OrdinaryStays(s: string)
    requires Ordinary(s)
    ensures QsysName(s) == s
  {
    UpperKeeps(s);
  }

  /** The first `/QSYS.LIB` of a path is the one behind the ASP. */
  lemma QsysFound(p: string, asp: string)
    requires asp == "" || (asp[0] == '/' && '.' !in asp)
    requires MatchesAt(p, asp, 0) && MatchesAt(p, "/QSYS.LIB", |asp|)
    ensures IndexOf(p, "/QSYS.LIB", 0) == |asp|
  {
    var a := |asp|;
    forall i: nat | i < a ensures !MatchesAt(p, "/QSYS.LIB", i) {
      if i + 5 < a {
        MatchesChar(p, asp, 0, i + 5);
      } else {
        MatchesChar(p, "/QSYS.LIB", a, i + 5 - a);
      }
      NoMatch(p, "/QSYS.LIB", i, 5);
    }
  }

  lemma LibraryFound(p: string, from: nat, name: string)
    requires '.' !in name && MatchesAt(p, name, from) && MatchesAt(p, ".LIB/", from + |name|)
    ensures IndexOf(p, ".LIB/", from) == from + |name|
  {
    forall i: nat | from <= i < from + |name| ensures !MatchesAt(p, ".LIB/", i) {
      MatchesChar(p, name, from, i - from);
      NoMatch(p, ".LIB/", i, 0);
    }
  }

  /** Behind library QSYS there is no library segment. */
  lemma NoLibraryFound(p: string, from: nat, name: string, rest: string)
    requires from <= |p| && p[from..] == name + rest && '/' !in name
    requires '/' !in rest || (MatchesAt(rest, ".FILE/", 0) && '/' !in rest[6..])
    ensures IndexOf(p, ".LIB/", from) == -1
  {
    forall i: nat | from <= i ensures !MatchesAt(p, ".LIB/", i) {
      if i + 4 < |p| {
        NoLibraryAt(p, from, name, rest, i);
      }
    }
  }

  lemma NoLibraryAt(p: string, from: nat, name: string, rest: string, i: nat)
    requires from <= i && i + 4 < |p| && p[from..] == name + rest && '/' !in name
    requires '/' !in rest || (MatchesAt(rest, ".FILE/", 0) && '/' !in rest[6..])
    ensures !MatchesAt(p, ".LIB/", i)
  {
    assert p[i + 4] == (name + rest)[i + 4 - from];
    if p[i + 4] == '/' {
      var k := i + 4 - from - |name|;
      assert k >= 0 && rest[k] == '/';
      OnlySlash(rest);
      assert p[i] == (name + rest)[i - from] == rest[1];
      MatchesChar(rest, ".FILE/", 0, 1);
      NoMatch(p, ".LIB/", i, 0);
    } else {
      NoMatch(p, ".LIB/", i, 4);
    }
  }

  lemma OnlySlash(rest: string)
    requires MatchesAt(rest, ".FILE/", 0) && '/' !in rest[6..]
    ensures forall j | 0 <= j < |rest| :: rest[j] == '/' ==> j == 5
  {
    forall j: nat | j < |rest| ensures rest[j] == '/' ==> j == 5 {
      if j < 6 {
        MatchesChar(rest, ".FILE/", 0, j);
      } else {
        assert rest[j] == rest[6..][j - 6];
      }
    }
  }

  lemma LastDotFound(p: string, k: nat)
    requires k < |p| && p[k] == '.' && '.' !in p[k + 1..]
    ensures LastIndexOf(p, ".", |p|) == k
  {
    assert MatchesAt(p, ".", k);
    forall i: nat | k < i <= |p| ensures !MatchesAt(p, ".", i) {
      if i < |p| {
        assert p[i] == p[k + 1..][i - k - 1];
        NoMatch(p, ".", i, 0);
      }
    }
  }

  /** The file's extension is the last one before the member's. */
  lemma FileFound(p: string, k: nat, lastDot: nat)
    requires MatchesAt(p, ".FILE/", k) && k <= lastDot && '/' !in p[k + 6..]
    ensures LastIndexOf(p, ".FILE/", lastDot) == k
  {
    forall i: nat | k < i <= lastDot ensures !MatchesAt(p, ".FILE/", i) {
      if i + 5 < |p| {
        assert p[i + 5] == p[k + 6..][i - k - 1];
        NoMatch(p, ".FILE/", i, 5);
      }
    }
  }

  lemma TypedObjectParses(p: string, asp: string, library: string, from: nat, name: string, objectType: string)
    requires from <= |p| && p[from..] == name + ("." + objectType) && |library| <= 10 && |name| <= 10 && |objectType| <= 6
    requires '.' !in objectType && objectType != "MBR"
    ensures ParseObject(p, asp, library, from) == Ok(Parts(asp, library, ObjectName(name), "", objectType))
  {
    hide ObjectName, LastIndexOf;
    var k := from + |name|;
    var s := name + ("." + objectType);
    assert p[k] == s[|name|] && p[k + 1..] == s[|name| + 1..] == objectType;
    LastDotFound(p, k);
    assert p[from..k] == s[..|name|] == name;
  }

  lemma MemberParses(p: string, asp: string, library: string, from: nat, name: string, member: string)
    requires from <= |p| && p[from..] == name + (".FILE/" + member + ".MBR") && |library| <= 10 && |name| <= 10 && |member| <= 10
    requires '.' !in member && '/' !in member
    ensures ParseObject(p, asp, library, from) == Ok(Parts(asp, library, ObjectName(name), MemberName(member), "MBR"))
  {
    hide ObjectName, MemberName, LastIndexOf, MatchesAt;
    var k, d := from + |name|, from + |name| + 6 + |member|;
    MemberPieces(p, from, name, member);
    LastDotFound(p, d);
    FileFound(p, k, d);
  }

  lemma MemberPieces(p: string, from: nat, name: string, member: string)
    requires from <= |p| && p[from..] == name + (".FILE/" + member + ".MBR") && '/' !in member
    ensures var k, d := from + |name|, from + |name| + 6 + |member|;
            && d + 4 == |p| && p[d] == '.' && p[d + 1..] == "MBR" && MatchesAt(p, ".FILE/", k) && '/' !in p[k + 6..]
            && p[from..k] == name && p[k + 6..d] == member
  {
    var k, d := from + |name|, from + |name| + 6 + |member|;
    var tail := member + ".MBR";
    assert ".FILE/" + member + ".MBR" == ".FILE/" + tail;
    MatchesParts(p, name, ".FILE/" + tail, from);
    MatchesParts(p, ".FILE/", tail, k);
    MemberTail(p, k + 6, member);
  }

  lemma MemberTail(p: string, from: nat, member: string)
    requires MatchesAt(p, member + ".MBR", from) && from + |member| + 4 == |p| && '/' !in member
    ensures var d := from + |member|;
            p[d] == '.' && p[d + 1..] == "MBR" && '/' !in p[from..] && p[from..d] == member
  {
    MatchesParts(p, member, ".MBR", from);
    MatchesChar(p, ".MBR", from + |member|, 0);
    assert ".MBR" == "." + "MBR";
    MatchesParts(p, ".", "MBR", from + |member|);
    assert p[from..] == member + ".MBR";
  }

  /** Parsed back, every name has gone to its path form and back. */
  function Returned(c: Parts): (r: Parts) {
    Parts(c.aspName, LibraryName(LibraryPathName(c.library)), ObjectName(ObjectPathName(c.object_)), MemberName(MemberPathName(c.member)), c.objectType)
  }

  lemma ObjectParses(c: Parts, p: string, asp: string, library: string, from: nat)
    requires WellFormed(c) && |library| <= 10 && from <= |p| && p[from..] == ObjectPathName(c.object_) + TypeText(c)
    ensures ParseObject(p, asp, library, from) == Ok(Returned(c).(aspName := asp, library := library))
  {
    hide ParseObject, ObjectName, ObjectPathName, MemberName, MemberPathName, LibraryName, LibraryPathName;
    PathFormsArePlain(c);
    if c.member != "" {
      MemberParses(p, asp, library, from, ObjectPathName(c.object_), MemberPathName(c.member));
    } else {
      TypedObjectParses(p, asp, library, from, ObjectPathName(c.object_), c.objectType);
      NoMember();
    }
  }

  lemma NoMember()
    ensures MemberName(MemberPathName("")) == ""
  {}

  lemma LibraryParses(c: Parts, p: string, asp: string, from: nat)
    requires WellFormed(c) && 0 < from <= |p|
    requires p[from - 1..] == LibraryText(c) + ("/" + (ObjectPathName(c.object_) + TypeText(c)))
    ensures ParseLibrary(p, asp, from) == Ok(Returned(c).(aspName := asp))
  {
    hide ParseLibrary, ObjectPathName, LibraryPathName, TypeText, WellFormed, Returned;
    var rest := ObjectPathName(c.object_) + TypeText(c);
    if c.library != "QSYS" {
      NamedLibraryParses(c, p, asp, from, LibraryPathName(c.library), rest);
    } else {
      SystemLibraryParses(c, p, asp, from, rest);
    }
  }

  lemma NamedLibraryParses(c: Parts, p: string, asp: string, from: nat, name: string, rest: string)
    requires WellFormed(c) && c.library != "QSYS" && name == LibraryPathName(c.library) && rest == ObjectPathName(c.object_) + TypeText(c)
    requires 0 < from <= |p| && p[from - 1..] == "/" + name + ".LIB" + ("/" + rest)
    ensures ParseLibrary(p, asp, from) == Ok(Returned(c).(aspName := asp))
  {
    hide ParseLibrary, ParseObject, ObjectName, ObjectPathName, MemberName, MemberPathName, LibraryName, LibraryPathName, TypeText, WellFormed;
    NamesForSegments(c);
    LibrarySegment(p, from, name, rest);
    LibraryStep(p, asp, from, name);
    ObjectParses(c, p, asp, LibraryName(name), from + |name| + 5);
  }

  lemma SystemLibraryParses(c: Parts, p: string, asp: string, from: nat, rest: string)
    requires WellFormed(c) && c.library == "QSYS" && rest == ObjectPathName(c.object_) + TypeText(c)
    requires 0 < from <= |p| && p[from - 1..] == "" + ("/" + rest)
    ensures ParseLibrary(p, asp, from) == Ok(Returned(c).(aspName := asp))
  {
    hide ParseLibrary, ParseObject, ObjectName, ObjectPathName, MemberName, MemberPathName, LibraryName, LibraryPathName, TypeText, WellFormed;
    assert p[from..] == p[from - 1..][1..] == ("/" + rest)[1..] == rest;
    NamesForSegments(c);
    TypeTextSlash(c);
    NoLibraryFound(p, from, ObjectPathName(c.object_), TypeText(c));
    NoLibraryStep(p, asp, from);
    ObjectParses(c, p, asp, "QSYS", from);
    QsysStays();
  }

  lemma NamesForSegments(c: Parts)
    requires WellFormed(c)
    ensures var name := LibraryPathName(c.library); name != "" && '.' !in name && |LibraryName(name)| <= 10
    ensures c.library != "QSYS" ==> LibraryPathName(c.library) != "QSYS"
    ensures '/' !in ObjectPathName(c.object_)
  {
    hide LibraryPathName, LibraryName, ObjectPathName;
    PathFormsArePlain(c);
  }

  lemma LibraryStep(p: string, asp: string, from: nat, name: string)
    requires from + |name| + 5 <= |p| && name != "" && name != "QSYS"
    requires IndexOf(p, ".LIB/", from) == from + |name| && p[from..from + |name|] == name
    ensures ParseLibrary(p, asp, from) == ParseObject(p, asp, LibraryName(name), from + |name| + 5)
  {
    hide ParseObject, LibraryName, IndexOf;
  }

  lemma NoLibraryStep(p: string, asp: string, from: nat)
    requires from <= |p| && IndexOf(p, ".LIB/", from) == -1
    ensures ParseLibrary(p, asp, from) == ParseObject(p, asp, "QSYS", from)
  {
    hide ParseObject, LibraryName, IndexOf;
  }

  lemma QsysStays()
    ensures LibraryName(LibraryPathName("QSYS")) == "QSYS"
  {}

  lemma LibrarySegment(p: string, from: nat, name: string, rest: string)
    requires 0 < from <= |p| && p[from - 1..] == "/" + name + ".LIB" + ("/" + rest) && '.' !in name
    ensures IndexOf(p, ".LIB/", from) == from + |name| && p[from..from + |name|] == name
    ensures from + |name| + 5 <= |p| && p[from + |name| + 5..] == rest
  {
    var s := "/" + (name + (".LIB/" + rest));
    assert "/" + name + ".LIB" + ("/" + rest) == s;
    assert MatchesAt(p, s, from - 1);
    MatchesParts(p, "/", name + (".LIB/" + rest), from - 1);
    MatchesParts(p, name, ".LIB/" + rest, from);
    MatchesParts(p, ".LIB/", rest, from + |name|);
    LibraryFound(p, from, name);
  }

  lemma TypeTextSlash(c: Parts)
    requires WellFormed(c)
    ensures var t := TypeText(c); '/' !in t || (MatchesAt(t, ".FILE/", 0) && '/' !in t[6..])
  {
    PathFormsArePlain(c);
    if c.member != "" {
      assert TypeText(c)[..6] == ".FILE/";
      assert TypeText(c)[6..] == MemberPathName(c.member) + ".MBR";
    }
  }

  lemma PathPieces(c: Parts)
    requires WellFormed(c)
    ensures BuildPathName(c) == AspText(c) + "/QSYS.LIB" + (LibraryText(c) + ("/" + (ObjectPathName(c.object_) + TypeText(c))))
    ensures Ordinary(BuildPathName(c))
  {
    hide ObjectPathName, MemberPathName, LibraryPathName, AspText, LibraryText, TypeText, Ordinary;
    PathIsPieces(c);
    PiecesAreOrdinary(c);
    OrdinaryJoins(ObjectPathName(c.object_), TypeText(c));
    OrdinaryJoins("/", ObjectPathName(c.object_) + TypeText(c));
    OrdinaryJoins(LibraryText(c), "/" + (ObjectPathName(c.object_) + TypeText(c)));
    OrdinaryJoins(AspText(c), "/QSYS.LIB");
    OrdinaryJoins(AspText(c) + "/QSYS.LIB", LibraryText(c) + ("/" + (ObjectPathName(c.object_) + TypeText(c))));
  }

  lemma PathIsPieces(c: Parts)
    requires WellFormed(c)
    ensures BuildPathName(c) == AspText(c) + "/QSYS.LIB" + (LibraryText(c) + ("/" + (ObjectPathName(c.object_) + TypeText(c))))
  {
    hide ObjectPathName, MemberPathName, LibraryPathName;
    var rest := "/" + (ObjectPathName(c.object_) + TypeText(c));
    assert AspText(c) + "/QSYS.LIB" + (LibraryText(c) + rest) == AspText(c) + "/QSYS.LIB" + LibraryText(c) + rest;
  }

  lemma PiecesAreOrdinary(c: Parts)
    requires WellFormed(c)
    ensures Ordinary(AspText(c)) && Ordinary(LibraryText(c)) && Ordinary(ObjectPathName(c.object_)) && Ordinary(TypeText(c))
    ensures Ordinary("/") && Ordinary("/QSYS.LIB")
  {
    hide ObjectPathName, MemberPathName, LibraryPathName;
    PathFormsArePlain(c);
    hide WellFormed;
    AspIsOrdinary(c.aspName);
    if c.library != "QSYS" {
      SegmentIsOrdinary(LibraryPathName(c.library), ".LIB");
    }
    if c.member != "" {
      MemberIsOrdinary(MemberPathName(c.member));
    } else {
      TypeIsOrdinary(c.objectType);
    }
  }

  lemma AspIsOrdinary(asp: string)
    requires asp == "" || PlainName(asp)
    ensures Ordinary("/" + asp)
  {}

  lemma SegmentIsOrdinary(name: string, suffix: string)
    requires PlainName(name) && suffix == ".LIB"
    ensures Ordinary("/" + name + suffix)
  {}

  lemma MemberIsOrdinary(name: string)
    requires PlainName(name)
    ensures Ordinary(".FILE/" + name + ".MBR")
  {}

  lemma TypeIsOrdinary(name: string)
    requires PlainName(name)
    ensures Ordinary("." + name)
  {}

  /**
   For all well-formed components, with the special values and library QSYS among them: parsing the
   built path returns every name as its path form stands for it.
   */
  lemma BuiltPathParses(c: Parts)
    requires WellFormed(c)
    ensures ParsePath(BuildPathName(c)) == Ok(Returned(c))
  {
    hide BuildPathName, ParseLibrary, Returned;
    PathPieces(c);
    var a, tail := AspText(c), LibraryText(c) + ("/" + (ObjectPathName(c.object_) + TypeText(c)));
    var p := BuildPathName(c);
    OrdinaryStays(p);
    UpperPathParses(c, p, a, tail);
  }

  lemma UpperPathParses(c: Parts, p: string, a: string, tail: string)
    requires WellFormed(c) && a == AspText(c) && tail == LibraryText(c) + ("/" + (ObjectPathName(c.object_) + TypeText(c)))
    requires p == a + "/QSYS.LIB" + tail
    ensures p != "" && ParseUpper(p) == Ok(Returned(c))
  {
    hide ParseLibrary, ObjectPathName, LibraryPathName, MemberPathName, LibraryName, MemberName, ObjectName;
    assert MatchesAt(p, a, 0) && MatchesAt(p, "/QSYS.LIB", |a|);
    QsysFound(p, a);
    var from := |a| + 10;
    TailStart(c, tail);
    assert p[from - 1..] == tail;
    assert p[from] == tail[1];
    LibraryParses(c, p, c.aspName, from);
    assert a != "" ==> p[1..|a|] == a[1..] == c.aspName;
    assert |p[|a|..]| == 9 + |tail|;
  }

  /** Behind `/QSYS.LIB` stand a slash and a name. */
  lemma TailStart(c: Parts, tail: string)
    requires WellFormed(c) && tail == LibraryText(c) + ("/" + (ObjectPathName(c.object_) + TypeText(c)))
    ensures |tail| > 2 && tail[0] == '/' && tail[1] != '/'
  {
    hide ObjectPathName, LibraryPathName, MemberPathName, LibraryName;
    PathFormsArePlain(c);
    if c.library != "QSYS" {
      assert tail[1] == LibraryPathName(c.library)[0];
    } else {
      assert tail[1] == ObjectPathName(c.object_)[0];
    }
  }

  /** The components come back exactly when none of their names is the percent form of a special value; the path always does. */
  lemma RoundTripIff(c: Parts)
    requires WellFormed(c)
    ensures ParsePath(BuildPathName(c)) == Ok(c) <==> NotPathForms(c)
    ensures ParsePath(BuildPathName(c)).Ok? && BuildPathName(ParsePath(BuildPathName(c)).value) == BuildPathName(c)
  {
    hide BuildPathName, ParsePath;
    BuiltPathParses(c);
    ReturnedIff(c);
    ReturnedBuildsSame(c);
  }

  /** A name without the characters that structure a path; its letters may be small, as those of a quoted name are. */
  ghost predicate Separable(s: string) {
    s != "" && '/' !in s && '.' !in s && '"' !in s
  }

  ghost predicate SeparableParts(c: Parts) {
    && (c.aspName == "" || Separable(c.aspName)) && Separable(c.library) && Separable(c.object_)
    && (c.member == "" || Separable(c.member)) && Separable(c.objectType)
  }

  predicate UpperParts(c: Parts) {
    IsUpper(c.aspName) && IsUpper(c.library) && IsUpper(c.object_) && IsUpper(c.member) && IsUpper(c.objectType)
  }

  /**
   Constructed from any names it accepts, quoted ones included: the object's path parses back to its
   fields if and only if none of them has a small letter or is the percent form of a special value, and
   only a member has the type of one.
   */
  lemma AssignedPathParsesIff(args: Arguments)
    requires args.Valid() && SeparableParts(args.Folded())
    ensures var c := args.Folded();
            ParsePath(BuildPathName(c)) == Ok(c) <==> UpperParts(c) && NotPathForms(c) && (c.objectType == "MBR" ==> c.member != "")
  {
    hide BuildPathName, ParsePath, NotPathForms, WellFormed;
    var c := args.Folded();
    FoldedLengths(args);
    if c.objectType == "MBR" && c.member == "" {
      NoPath(c);
    } else {
      ParsedIsUpper(c);
      if UpperParts(c) {
        FoldedIsWellFormed(args);
        RoundTripIff(c);
      }
    }
  }

  lemma NoPath(c: Parts)
    requires c.objectType == "MBR" && c.member == ""
    ensures ParsePath(BuildPathName(c)).Err?
  {}

  lemma {:induction false} UnquoteShortens(name: string, inQuotes: bool)
    ensures |Unquote(name, inQuotes)| <= |name|
  {
    if name != "" {
      UnquoteShortens(name[1..], if name[0] == '"' then !inQuotes else inQuotes);
    }
  }

  lemma QsysNameShortens(name: string)
    ensures |QsysName(name)| <= |name|
  {
    UnquoteShortens(name, false);
  }

  lemma FoldedLengths(args: Arguments)
    requires args.Valid()
    ensures var c := args.Folded();
            |c.library| <= 10 && |c.object_| <= 10 && |c.member| <= 10 && |c.objectType| <= 6 && (c.member != "" ==> c.objectType == "MBR")
  {
    hide QsysName;
    QsysNameShortens(args.library);
    QsysNameShortens(args.object_);
    if !args.Object? {
      QsysNameShortens(args.member);
    }
  }

  lemma FoldedIsWellFormed(args: Arguments)
    requires args.Valid() && SeparableParts(args.Folded()) && UpperParts(args.Folded())
    requires args.Folded().objectType == "MBR" ==> args.Folded().member != ""
    ensures WellFormed(args.Folded())
  {
    hide LibraryName, LibraryPathName, ObjectPathName, MemberPathName, QsysName;
    var c := args.Folded();
    FoldedLengths(args);
    ShortForms(c);
  }

  lemma ShortForms(c: Parts)
    requires |c.library| <= 10 && |c.object_| <= 10 && |c.member| <= 10
    ensures |LibraryName(LibraryPathName(c.library))| <= 10 && |ObjectPathName(c.object_)| <= 10 && |MemberPathName(c.member)| <= 10
  {}

  /** Everything parsed out of a path without quotes is in upper case. */
  lemma ParsedIsUpper(c: Parts)
    requires SeparableParts(c)
    ensures var r := ParsePath(BuildPathName(c)); r.Ok? ==> UpperParts(r.value)
  {
    hide BuildPathName, ParseUpper;
    var p := BuildPathName(c);
    NoQuotes(c);
    UpperKeeps(p);
    UpperParsed(Upper(p));
  }

  lemma NoQuotes(c: Parts)
    requires SeparableParts(c)
    ensures '"' !in BuildPathName(c)
  {
    hide LibraryPathName, ObjectPathName, MemberPathName;
    FormsWithoutQuotes(c);
  }

  lemma FormsWithoutQuotes(c: Parts)
    requires SeparableParts(c)
    ensures '"' !in LibraryPathName(c.library) && '"' !in ObjectPathName(c.object_) && '"' !in MemberPathName(c.member)
  {}

  lemma UpperSlice(p: string, i: nat, j: nat)
    requires IsUpper(p) && i <= j <= |p|
    ensures IsUpper(p[i..j])
  {}

  lemma UpperParsed(p: string)
    requires IsUpper(p)
    ensures ParseUpper(p).Ok? ==> UpperParts(ParseUpper(p).value)
  {
    hide ParseLibrary, IndexOf;
    var q := IndexOf(p, "/QSYS.LIB", 0);
    if q != -1 {
      if q > 0 {
        UpperSlice(p, 1, q);
      }
      var asp, from := if q > 0 then p[1..q] else "", if CharIs(p, q + 10, '/') then q + 11 else q + 10;
      if p[q..] != "/QSYS.LIB" {
        LongerThanQsys(p, q);
        UpperLibrary(p, asp, from);
      }
    }
  }

  lemma LongerThanQsys(p: string, q: nat)
    requires MatchesAt(p, "/QSYS.LIB", q) && p[q..] != "/QSYS.LIB"
    ensures q + 10 <= |p|
  {
    assert p[q..][..9] == p[q..q + 9];
  }

  lemma UpperLibrary(p: string, asp: string, from: nat)
    requires IsUpper(p) && IsUpper(asp) && from <= |p|
    ensures ParseLibrary(p, asp, from).Ok? ==> UpperParts(ParseLibrary(p, asp, from).value)
  {
    hide ParseObject, IndexOf, LibraryName;
    var k := IndexOf(p, ".LIB/", from);
    if k > from {
      UpperSlice(p, from, k);
      UpperNames(p[from..k]);
      UpperObject(p, asp, LibraryName(p[from..k]), k + 5);
    } else {
      UpperObject(p, asp, "QSYS", from);
    }
  }

  lemma UpperNames(name: string)
    requires IsUpper(name)
    ensures IsUpper(LibraryName(name)) && IsUpper(ObjectName(name)) && IsUpper(MemberName(name))
  {
    UpperLibraryNames();
    UpperMemberNames();
    hide IsUpper;
  }

  lemma UpperLibraryNames()
    ensures IsUpper("*LIBL") && IsUpper("*CURLIB") && IsUpper("*USRLIBL") && IsUpper("*ALL") && IsUpper("*ALLUSR")
  {}

  lemma UpperMemberNames()
    ensures IsUpper("*FIRST") && IsUpper("*LAST") && IsUpper("*FILE") && IsUpper("*NONE")
  {}

  lemma UpperObject(p: string, asp: string, library: string, from: nat)
    requires IsUpper(p) && IsUpper(asp) && IsUpper(library) && from <= |p|
    ensures ParseObject(p, asp, library, from).Ok? ==> UpperParts(ParseObject(p, asp, library, from).value)
  {
    hide LastIndexOf, ObjectName, ParseMember;
    var d := LastIndexOf(p, ".", |p|);
    if d >= from && |p| - d - 1 <= 6 {
      UpperSlice(p, d + 1, |p|);
      UpperSlice(p, from, d);
      UpperNames(p[from..d]);
      UpperMember(p, asp, library, from, d);
    }
  }

  lemma UpperMember(p: string, asp: string, library: string, from: nat, d: nat)
    requires IsUpper(p) && IsUpper(asp) && IsUpper(library) && from <= d < |p|
    ensures ParseMember(p, asp, library, from, d).Ok? ==> UpperParts(ParseMember(p, asp, library, from, d).value)
  {
    hide LastIndexOf, ObjectName, MemberName;
    var k := LastIndexOf(p, ".FILE/", d);
    if k >= from && d >= k + 6 {
      UpperSlice(p, from, k);
      UpperSlice(p, k + 6, d);
      UpperNames(p[from..k]);
      UpperNames(p[k + 6..d]);
    }
  }

  lemma ReturnedIff(c: Parts)
    ensures Returned(c) == c <==> NotPathForms(c)
  {
    LibraryComesBackIff(c.library);
    MemberComesBackIff(c.member);
    hide LibraryName, LibraryPathName, MemberName, MemberPathName;
  }

  lemma ReturnedBuildsSame(c: Parts)
    requires WellFormed(c)
    ensures BuildPathName(Returned(c)) == BuildPathName(c)
  {
    SamePathNames(c.library, c.object_, c.member);
    hide LibraryName, LibraryPathName, MemberName, MemberPathName, ObjectName, ObjectPathName;
  }

  lemma SamePathNames(library: string, object_: string, member: string)
    ensures LibraryPathName(LibraryName(LibraryPathName(library))) == LibraryPathName(library)
    ensures ObjectPathName(ObjectName(ObjectPathName(object_))) == ObjectPathName(object_)
    ensures MemberPathName(MemberName(MemberPathName(member))) == MemberPathName(member)
    ensures library != "" ==> LibraryName(LibraryPathName(library)) != ""
    ensures object_ != "" ==> ObjectName(ObjectPathName(object_)) != ""
    ensures member != "" <==> MemberName(MemberPathName(member)) != ""
    ensures library == "QSYS" <==> LibraryName(LibraryPathName(library)) == "QSYS"
  {
    SameLibraryPathName(library);
    SameMemberPathName(member);
    hide LibraryName, LibraryPathName, MemberName, MemberPathName;
  }

  lemma SameLibraryPathName(name: string)
    ensures LibraryPathName(LibraryName(LibraryPathName(name))) == LibraryPathName(name)
    ensures name != "" ==> LibraryName(LibraryPathName(name)) != ""
    ensures name == "QSYS" <==> LibraryName(LibraryPathName(name)) == "QSYS"
  {}

  lemma SameMemberPathName(name: string)
    ensures MemberPathName(MemberName(MemberPathName(name))) == MemberPathName(name)
    ensures name != "" <==> MemberName(MemberPathName(name)) != ""
  {}

  /** The path of library QSYS itself. */
  lemma SystemLibraryRoundTrip(asp: string)
    requires asp == "" || PlainName(asp)
    ensures var c := Parts(asp, "QSYS", "", "", "LIB"); ParsePath(BuildPathName(c)) == Ok(c)
  {
    var c := Parts(asp, "QSYS", "", "", "LIB");
    var a := AspText(c);
    var p := BuildPathName(c);
    assert p == a + "/QSYS.LIB";
    OrdinaryStays(p);
    assert MatchesAt(p, a, 0) && MatchesAt(p, "/QSYS.LIB", |a|);
    QsysFound(p, a);
    assert a != "" ==> p[1..|a|] == a[1..] == asp;
  }
}
