/** The book file seen as a zip file system: the entries `Files.walk` visits, in
    walk order, each a directory or a file with its text. Paths are absolute and
    carry no trailing '/' except the root "/" itself, as zip file-system paths do. */
module Archive {
  import opened Lang
  import opened Strings

  datatype Entry = File(path: string, text: string) | Dir(path: string)

  /** `Path.getFileName()`: the last name of the path, null for the root. (An
      empty path has itself as file name in Java; the walk never yields one, and
      no caller can tell an empty name from null.) */
  function FileName(path: string): (r: Nullable<string>)
    ensures r.NonNull? ==> r.value != "" && '/' !in r.value && EndsWith(path, r.value)
    ensures r.NonNull? ==> |path| == |r.value| || path[|path| - |r.value| - 1] == '/'
    ensures r.Null? <==> path == "" || path[|path| - 1] == '/'
  {
    var k := LastIndexOf(path, '/');
    var name := path[k + 1..];
    if name == "" then Null else NonNull(name)
  }

  /** `Path.getParent()`: everything before the last name, "/" for a name right
      under the root, null for the root and for a relative single name. */
  function Parent(path: string): (r: Nullable<string>)
    ensures r.Null? <==> '/' !in path || path == "/"
    ensures r.NonNull? ==> r.value != "" && |r.value| < |path| && path[..|r.value|] == r.value
  {
    var k := LastIndexOf(path, '/');
    if k < 0 then Null
    else if k == 0 then (if |path| == 1 then Null else NonNull("/"))
    else NonNull(path[..k])
  }

  /** `Paths.get(first, more)` for two parts: one separator between them, and an
      empty part contributes nothing. */
  function PathsGet(first: string, more: string): (r: string)
    ensures more == "" ==> r == first
    ensures first == "" ==> r == more
    ensures first != "" && more != "" ==> EndsWith(r, "/" + more) && |first| < |r| && r[..|first|] == first
    ensures first != "" && more != "" ==> |r| == |first| + |more| + (if EndsWith(first, "/") then 0 else 1)
  {
    if more == "" then first
    else if first == "" then more
    else if EndsWith(first, "/") then first + more
    else first + "/" + more
  }

  /** `read(predicate)`: the text of the first walked path satisfying the predicate;
      null when there is none or it is a directory (reading it fails and the
      failure is caught). */
  function Read(archive: seq<Entry>, accept: string -> bool): (r: Nullable<string>)
    ensures r.NonNull? ==> exists k :: 0 <= k < |archive| && archive[k].File? && accept(archive[k].path) &&
                                       archive[k].text == r.value &&
                                       forall j :: 0 <= j < k ==> !accept(archive[j].path)
    ensures (forall k :: 0 <= k < |archive| ==> !accept(archive[k].path)) ==> r.Null?
  {
    match FindFirst(archive, (e: Entry) => accept(e.path))
    case Null => Null
    case NonNull(entry) => if entry.File? then NonNull(entry.text) else Null
  }

  /** `read` returns the text of the first accepted entry when it is a file. */
  lemma ReadFirst(archive: seq<Entry>, accept: string -> bool, j: nat)
    requires j < |archive| && archive[j].File? && accept(archive[j].path)
    requires forall k :: 0 <= k < j ==> !accept(archive[k].path)
    ensures Read(archive, accept) == NonNull(archive[j].text)
  {
    assert FirstWhere(archive, (e: Entry) => accept(e.path)) == NonNull(j);
  }

  /** The file name exists and contains `s`. */
  predicate NameContains(path: string, s: string) {
    FileName(path).NonNull? && Contains(FileName(path).value, s)
  }

  /** `readContainerXML`. */
  function ReadContainerXml(archive: seq<Entry>): Nullable<string> {
    Read(archive, path => NameContains(path, "container.xml"))
  }

  /** `readContentOPF`. */
  function ReadContentOpf(archive: seq<Entry>): Nullable<string> {
    Read(archive, path => NameContains(path, "content.opf"))
  }

  /** `readContentOPF` reads the first entry whose file name contains
      "content.opf", when it is a file. */
  lemma ReadContentOpfFirst(archive: seq<Entry>, j: nat)
    requires j < |archive| && archive[j].File? && NameContains(archive[j].path, "content.opf")
    requires forall k :: 0 <= k < j ==> !NameContains(archive[k].path, "content.opf")
    ensures ReadContentOpf(archive) == NonNull(archive[j].text)
  {
    ReadFirst(archive, path => NameContains(path, "content.opf"), j);
  }

  /** `getParent` and `getFileName` take an absolute path apart, and joining the
      parts with one separator puts it back together. */
  lemma ParentAndName(dir: string, name: string)
    requires |dir| > 0 && dir[0] == '/' && (dir == "/" || dir[|dir| - 1] != '/')
    requires name != "" && '/' !in name
    ensures FileName(PathsGet(dir, name)) == NonNull(name)
    ensures Parent(PathsGet(dir, name)) == NonNull(dir)
  {
    var path := PathsGet(dir, name);
    var k := |path| - |name| - 1;
    assert path[k] == '/';
    assert path[k + 1..] == name;
    forall i | k < i < |path|
      ensures path[i] != '/'
    {
      assert path[i] == name[i - k - 1];
    }
    assert LastIndexOf(path, '/') == k;
    if dir == "/" {
      assert k == 0;
    } else {
      assert path[..k] == dir;
    }
  }
}
