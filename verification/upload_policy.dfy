/** The extension allow-list and the multer `fileFilter` callback, in the two
    variants the repository carries. server.js lower-cases every entry of the
    comma-separated `ALLOWED_EXTENSIONS` setting once at start-up; app.js
    re-reads the setting inside the callback and keeps the entries as they
    are. Both compare against the original name's `extname`, lower-cased and
    stripped of its first character. */
module UploadPolicy {
  import opened Options
  import opened Text
  import opened NodePath

  /** The error message both filters hand to multer with a rejection. */
  const RejectMessage: string := "Tipo de archivo no permitido"

  /** What the filter passes to multer's callback: `cb(null, true)`, or
      `cb(new Error(message), false)`. */
  datatype Verdict = Accept | Reject(error: string)

  /** `process.env.ALLOWED_EXTENSIONS || ''`: an unset and an empty variable
      both read as the empty string. */
  function SettingText(setting: Option<string>): string
  {
    match setting
    case Some(text) => text
    case None => ""
  }

  /** `list.map(ext => ext.toLowerCase())`. */
  function LowerEach(list: seq<string>): (r: seq<string>)
    ensures |r| == |list|
    ensures forall i :: 0 <= i < |list| ==> r[i] == Lower(list[i])
  {
    seq(|list|, i requires 0 <= i < |list| => Lower(list[i]))
  }

  /** Lower-casing every piece and joining is joining and lower-casing, since
      the separator is not a letter. */
  lemma {:induction false} JoinLowerEach(list: seq<string>, sep: char)
    requires !IsUpperChar(sep)
    ensures Join(LowerEach(list), sep) == Lower(Join(list, sep))
  {
    if |list| > 1 {
      JoinLowerEach(list[1..], sep);
      assert LowerEach(list)[1..] == LowerEach(list[1..]);
      LowerConcat(list[0] + [sep], Join(list[1..], sep));
      LowerConcat(list[0], [sep]);
    }
  }

  /* ---------------------------------------------------------------------- */
  /* Allow-lists                                                             */
  /* ---------------------------------------------------------------------- */

  /** server.js's allow-list: one entry per comma-separated piece of the
      setting, each lower-cased. */
  function ServerAllowedExtensions(setting: Option<string>): (list: seq<string>)
    ensures forall i :: 0 <= i < |list| ==> ',' !in list[i] && IsLower(list[i])
    ensures SettingText(setting) == "" ==> list == [""]
  {
    LowerEach(Split(SettingText(setting), ','))
  }

  /** app.js's allow-list: the raw comma-separated pieces of the setting. */
  function AppAllowedExtensions(setting: Option<string>): (list: seq<string>)
    ensures forall i :: 0 <= i < |list| ==> ',' !in list[i]
    ensures SettingText(setting) == "" ==> list == [""]
  {
    Split(SettingText(setting), ',')
  }

  /** server.js has one entry per comma plus one, and joined with commas the
      entries spell the lower-cased setting. */
  lemma ServerAllowedJoin(setting: Option<string>)
    ensures |ServerAllowedExtensions(setting)| == Count(SettingText(setting), ',') + 1
    ensures Join(ServerAllowedExtensions(setting), ',') == Lower(SettingText(setting))
  {
    var pieces := Split(SettingText(setting), ',');
    JoinSplit(SettingText(setting), ',');
    JoinLowerEach(pieces, ',');
  }

  /** app.js has one entry per comma plus one, and joined with commas the
      entries spell the setting itself. */
  lemma AppAllowedJoin(setting: Option<string>)
    ensures |AppAllowedExtensions(setting)| == Count(SettingText(setting), ',') + 1
    ensures Join(AppAllowedExtensions(setting), ',') == SettingText(setting)
  {
    JoinSplit(SettingText(setting), ',');
  }

  /** The server.js list is the comma split of the lower-cased setting: the
      two orders of lower-casing and splitting agree. */
  lemma ServerAllowedIsSplitOfLower(setting: Option<string>)
    ensures ServerAllowedExtensions(setting) == Split(Lower(SettingText(setting)), ',')
  {
    ServerAllowedJoin(setting);
    SplitJoin(ServerAllowedExtensions(setting), ',');
  }

  /* ---------------------------------------------------------------------- */
  /* The filter                                                              */
  /* ---------------------------------------------------------------------- */

  /** `path.extname(originalname).toLowerCase().substring(1)`; `substring(1)`
      of the empty string is empty. */
  function CheckedExtension(originalname: string): string
  {
    var e := Lower(Extname(originalname));
    if e == "" then "" else e[1..]
  }

  /** The checked extension is the lower-cased extension without its dot: it
      holds no dot, no slash and no upper-case letter, and it is empty
      exactly when `extname` is `""` or `"."`. */
  lemma CheckedExtensionShape(originalname: string)
    ensures '.' !in CheckedExtension(originalname)
    ensures '/' !in CheckedExtension(originalname)
    ensures IsLower(CheckedExtension(originalname))
    ensures CheckedExtension(originalname) == ""
      <==> Extname(originalname) == "" || Extname(originalname) == "."
    ensures Extname(originalname) != ""
      ==> "." + CheckedExtension(originalname) == Lower(Extname(originalname))
  {
    CheckedHasNoDot(originalname);
    CheckedShapeIsLower(originalname);
    CheckedHasNoSlash(originalname);
    CheckedEmptyIff(originalname);
    CheckedFollowsDot(originalname);
  }

  lemma CheckedShapeIsLower(originalname: string)
    ensures IsLower(CheckedExtension(originalname))
  {
  }

  lemma CheckedHasNoDot(originalname: string)
    ensures '.' !in CheckedExtension(originalname)
  {
    var x := Extname(originalname);
    var e := Lower(x);
    if e != "" {
      assert CheckedExtension(originalname) == e[1..];
      assert e[1..] == Lower(x[1..]);
    }
  }

  lemma CheckedHasNoSlash(originalname: string)
    ensures '/' !in CheckedExtension(originalname)
  {
    var x := Extname(originalname);
    var e := Lower(x);
    assert forall i :: 0 <= i < |e| ==> e[i] != '/' by {
      forall i | 0 <= i < |e| ensures e[i] != '/' {
        assert e[i] == LowerChar(x[i]) && x[i] != '/';
      }
    }
  }

  lemma CheckedEmptyIff(originalname: string)
    ensures CheckedExtension(originalname) == ""
      <==> Extname(originalname) == "" || Extname(originalname) == "."
  {
    var x := Extname(originalname);
    assert |Lower(x)| == |x|;
    if |x| == 1 {
      assert x == [x[0]];
    }
  }

  lemma CheckedFollowsDot(originalname: string)
    ensures Extname(originalname) != ""
      ==> "." + CheckedExtension(originalname) == Lower(Extname(originalname))
  {
    var x := Extname(originalname);
    var e := Lower(x);
    if x != "" {
      assert e[0] == LowerChar(x[0]) == '.';
      assert e == [e[0]] + e[1..];
    }
  }

  /** The body of both `fileFilter` callbacks, given the allow-list in force. */
  function Filter(allowed: seq<string>, originalname: string): Verdict
  {
    if CheckedExtension(originalname) in allowed then Accept else Reject(RejectMessage)
  }

  /** server.js's `fileFilter`; a rejection always carries the fixed message. */
  function ServerFileFilter(setting: Option<string>, originalname: string): (v: Verdict)
    ensures v.Reject? ==> v.error == RejectMessage
  {
    Filter(ServerAllowedExtensions(setting), originalname)
  }

  /** app.js's `fileFilter`; a rejection always carries the fixed message. */
  function AppFileFilter(setting: Option<string>, originalname: string): (v: Verdict)
    ensures v.Reject? ==> v.error == RejectMessage
  {
    Filter(AppAllowedExtensions(setting), originalname)
  }

  /** server.js accepts a file exactly when its lower-cased, dot-less
      extension is one of the comma pieces of the lower-cased setting, and
      otherwise rejects it with the fixed message. */
  lemma ServerFilterDecision(setting: Option<string>, originalname: string)
    ensures ServerFileFilter(setting, originalname).Accept?
      <==> CheckedExtension(originalname) in Split(Lower(SettingText(setting)), ',')
    ensures ServerFileFilter(setting, originalname).Reject?
      ==> ServerFileFilter(setting, originalname).error == RejectMessage
  {
    ServerAllowedIsSplitOfLower(setting);
  }

  /** The extension checked depends on the original name only up to letter
      case. */
  lemma CheckedExtensionCaseInsensitive(a: string, b: string)
    requires Lower(a) == Lower(b)
    ensures CheckedExtension(a) == CheckedExtension(b)
  {
    ExtnameLower(a);
    ExtnameLower(b);
  }

  /** Two original names differing only in letter case get the same verdict
      from either filter, whatever the allow-list. */
  lemma FilterCaseInsensitive(allowed: seq<string>, a: string, b: string)
    requires Lower(a) == Lower(b)
    ensures Filter(allowed, a) == Filter(allowed, b)
  {
    CheckedExtensionCaseInsensitive(a, b);
  }

  /** In server.js the setting is case-insensitive too: two settings equal up
      to letter case give every file the same verdict. */
  lemma ServerSettingCaseInsensitive(s1: Option<string>, s2: Option<string>, originalname: string)
    requires Lower(SettingText(s1)) == Lower(SettingText(s2))
    ensures ServerFileFilter(s1, originalname) == ServerFileFilter(s2, originalname)
  {
    ServerAllowedIsSplitOfLower(s1);
    ServerAllowedIsSplitOfLower(s2);
  }

  /** A name whose extension is empty or a bare dot (`README`, `.env`, `a.`)
      is accepted exactly when the allow-list holds the empty string. */
  lemma ExtensionlessVerdict(allowed: seq<string>, originalname: string)
    requires Extname(originalname) == "" || Extname(originalname) == "."
    ensures Filter(allowed, originalname).Accept? <==> "" in allowed
  {
    CheckedExtensionShape(originalname);
  }

  /** The list `[""]` accepts exactly the names whose `extname` is `""` or
      `"."`. */
  lemma EmptyEntryAcceptsOnlyExtensionless(originalname: string)
    ensures Filter([""], originalname).Accept?
      <==> Extname(originalname) == "" || Extname(originalname) == "."
  {
    CheckedEmptyIff(originalname);
  }

  /** With `ALLOWED_EXTENSIONS` unset or empty the list is `[""]`, so both
      filters accept exactly the names whose `extname` is `""` or `"."`. */
  lemma EmptySettingAcceptsOnlyExtensionless(setting: Option<string>, originalname: string)
    requires SettingText(setting) == ""
    ensures ServerFileFilter(setting, originalname).Accept?
      <==> Extname(originalname) == "" || Extname(originalname) == "."
    ensures AppFileFilter(setting, originalname).Accept?
      <==> Extname(originalname) == "" || Extname(originalname) == "."
  {
    assert ServerAllowedExtensions(setting) == [""];
    assert AppAllowedExtensions(setting) == [""];
    EmptyEntryAcceptsOnlyExtensionless(originalname);
  }

  /** In app.js an allow-list entry holding an upper-case letter never
      matches any file, since the checked extension is lower-cased. */
  lemma AppUppercaseEntryNeverMatches(setting: Option<string>, i: nat, originalname: string)
    requires i < |AppAllowedExtensions(setting)|
    requires !IsLower(AppAllowedExtensions(setting)[i])
    ensures CheckedExtension(originalname) != AppAllowedExtensions(setting)[i]
  {
    CheckedExtensionShape(originalname);
  }

  /** app.js is never more permissive than server.js: whatever it accepts,
      server.js accepts too. */
  lemma AppAcceptsOnlyWhatServerAccepts(setting: Option<string>, originalname: string)
    ensures AppFileFilter(setting, originalname).Accept?
      ==> ServerFileFilter(setting, originalname).Accept?
  {
    var raw := AppAllowedExtensions(setting);
    assert ServerAllowedExtensions(setting) == LowerEach(raw);
    CheckedShapeIsLower(originalname);
    LowerEachKeepsLowerEntries(raw, CheckedExtension(originalname));
  }

  /** An entry without upper-case letters survives lower-casing every entry. */
  lemma LowerEachKeepsLowerEntries(list: seq<string>, entry: string)
    requires IsLower(entry)
    ensures entry in list ==> entry in LowerEach(list)
  {
    if entry in list {
      var i :| 0 <= i < |list| && list[i] == entry;
      LowerFixesExactlyLower(entry);
      assert LowerEach(list)[i] == entry;
    }
  }

  /** On a setting without upper-case letters the two filters agree. */
  lemma FiltersAgreeOnLowerCaseSetting(setting: Option<string>, originalname: string)
    requires IsLower(SettingText(setting))
    ensures AppFileFilter(setting, originalname) == ServerFileFilter(setting, originalname)
  {
    LowerFixesExactlyLower(SettingText(setting));
    ServerAllowedIsSplitOfLower(setting);
  }

  /** The two variants really differ: a setting holding one entry with an
      upper-case letter, say `PNG`, makes server.js accept the files with
      that extension in any case and app.js reject them all. */
  lemma AppRejectsWhatServerAccepts(entry: string, originalname: string)
    requires ',' !in entry && !IsLower(entry)
    requires CheckedExtension(originalname) == Lower(entry)
    ensures ServerFileFilter(Some(entry), originalname) == Accept
    ensures AppFileFilter(Some(entry), originalname) == Reject(RejectMessage)
  {
    assert AppAllowedExtensions(Some(entry)) == [entry] by {
      SplitNoSeparator(entry, ',');
    }
    assert ServerAllowedExtensions(Some(entry)) == [Lower(entry)] by {
      SplitNoSeparator(entry, ',');
    }
    assert Lower(entry) != entry by {
      LowerFixesExactlyLower(entry);
    }
    SingleEntryFilter(Lower(entry), originalname);
    SingleEntryFilter(entry, originalname);
  }

  /** A one-entry list accepts exactly the names whose checked extension is
      that entry. */
  lemma SingleEntryFilter(entry: string, originalname: string)
    ensures Filter([entry], originalname) == Accept
      <==> CheckedExtension(originalname) == entry
    ensures Filter([entry], originalname) != Accept
      ==> Filter([entry], originalname) == Reject(RejectMessage)
  {
  }

  /** An instance: with the setting `PNG`, server.js accepts `photo.png`
      (and every other `<stem>.png` with a plain stem) while app.js rejects it. */
  lemma PngExample(stem: string)
    requires stem != [] && '.' !in stem && '/' !in stem
    ensures ServerFileFilter(Some("PNG"), stem + ".png") == Accept
    ensures AppFileFilter(Some("PNG"), stem + ".png") == Reject(RejectMessage)
  {
    PngChecked(stem);
    LowerPNG();
    AppRejectsWhatServerAccepts("PNG", stem + ".png");
  }

  lemma LowerPNG()
    ensures !IsLower("PNG") && Lower("PNG") == "png"
  {
    var entry := "PNG";
    assert IsUpperChar(entry[0]);
    var r := Lower(entry);
    assert r[0] == LowerChar('P') && r[1] == LowerChar('N') && r[2] == LowerChar('G');
    assert r == "png";
  }

  lemma PngChecked(stem: string)
    requires stem != [] && '.' !in stem && '/' !in stem
    ensures CheckedExtension(stem + ".png") == "png"
  {
    var name := stem + ".png";
    assert Extname(name) == ".png" by {
      assert name[|stem|] == '.' && name[|stem| + 1..] == "png" && name[|stem|..] == ".png";
      ExtnameAtLastDot(name, |stem|);
    }
    LowerDotPng();
    assert ".png"[1..] == "png";
  }

  lemma LowerDotPng()
    ensures Lower(".png") == ".png"
  {
    var x := ".png";
    assert IsLower(x) by {
      forall i | 0 <= i < |x| ensures !IsUpperChar(x[i]) {
        assert x[i] in {'.', 'p', 'n', 'g'};
      }
    }
    LowerFixesExactlyLower(x);
  }
}
