/** Entitlement keys: construction, printing and parsing (access/keys.go). */
module Keys {
  import opened Text
  import opened ContentID

  const MAX_TENANT: nat := 64

  /** MaxKeyBytes: <tenant>:content:<id>/<version>. */
  const MAX_KEY_BYTES: nat := MAX_TENANT + |":content:"| + 36 + 1 + 36

  datatype Key =
    | Content(tenant: string, id: string)
    | Version(tenant: string, id: string, version: string)
    | Channel(tenant: string, id: string)
    | Tier(name: string)

  /** [a-z0-9_-]{1,64}. */
  predicate ValidTenant(s: string) {
    0 < |s| <= MAX_TENANT && forall ch <- s :: 'a' <= ch <= 'z' || '0' <= ch <= '9' || ch == '_' || ch == '-'
  }

  predicate ValidTier(s: string) { 0 < |s| <= 63 && 'a' <= s[0] <= 'z' && ValidTenant(s) }

  /** The keys the constructors return. */
  predicate Constructible(k: Key) {
    match k
    case Content(tenant, id) => ValidTenant(tenant) && ValidID(id)
    case Version(tenant, id, version) => ValidTenant(tenant) && ValidID(id) && ValidID(version)
    case Channel(tenant, id) => ValidTenant(tenant) && ValidID(id)
    case Tier(name) => ValidTier(name)
  }

  /** makeKey and TierKey: None is ErrNotContentKey. */
  function Made(k: Key): Option<Key> { if Constructible(k) then Some(k) else None }

  function ContentPrefix(tenant: string): string { tenant + ":content:" }

  function ChannelPrefix(tenant: string): string { tenant + ":group:" }

  /** Key.String. */
  function Show(k: Key): string {
    match k
    case Content(tenant, id) => ContentPrefix(tenant) + id
    case Version(tenant, id, version) => ContentPrefix(tenant) + id + "/" + version
    case Channel(tenant, id) => ChannelPrefix(tenant) + id
    case Tier(name) => name
  }

  function ParseKey(s: string): Option<Key> {
    if |s| > MAX_KEY_BYTES then None else
      match Cut(s, ':')
      case None => Made(Tier(s))
      case Some((tenant, rest)) =>
        match Cut(rest, ':')
        case None => None
        case Some((ns, id)) =>
          if ns == "group" then Made(Channel(tenant, id))
          else if ns != "content" then None
          else
            match Cut(id, '/')
            case Some((content, version)) => Made(Version(tenant, content, version))
            case None => Made(Content(tenant, id))
  }

  // ---------------------------------------------------------------- lemmas

  lemma ValidIDChars(id: string)
    requires ValidID(id)
    ensures ':' !in id && '/' !in id
  {
    forall ch | ch in id ensures ch == '-' || IsHex(ch) {
      var i :| 0 <= i < 36 && id[i] == ch;
    }
  }

  /** A namespaced key text is cut at its two colons. */
  lemma CutNamespaced(tenant: string, ns: string, id: string)
    requires ':' !in tenant && ':' !in ns
    ensures Cut(tenant + ":" + ns + ":" + id, ':') == Some((tenant, ns + ":" + id))
    ensures Cut(ns + ":" + id, ':') == Some((ns, id))
  {
    assert tenant + ":" + ns + ":" + id == tenant + [':'] + (ns + ":" + id);
    CutJoined(tenant, ':', ns + ":" + id);
    CutJoined(ns, ':', id);
  }

  /** A key's text as tenant, namespace and the rest. */
  lemma ShowNamespaced(k: Key)
    ensures match k
            case Content(tenant, id) => Show(k) == tenant + ":" + "content" + ":" + id
            case Version(tenant, id, version) => Show(k) == tenant + ":" + "content" + ":" + (id + "/" + version)
            case Channel(tenant, id) => Show(k) == tenant + ":" + "group" + ":" + id
            case Tier(name) => Show(k) == name
  {}

  /** Parsing inverts printing on every constructible key, whose text fits the bound. */
  lemma ParseInvertsShow(k: Key)
    requires Constructible(k)
    ensures |Show(k)| <= MAX_KEY_BYTES && ParseKey(Show(k)) == Some(k)
  {
    ShowNamespaced(k);
    match k
    case Content(tenant, id) =>
      ValidIDChars(id);
      CutNamespaced(tenant, "content", id);
      CutAbsent(id, '/');
    case Version(tenant, id, version) =>
      ValidIDChars(id);
      CutNamespaced(tenant, "content", id + "/" + version);
      CutJoined(id, '/', version);
    case Channel(tenant, id) =>
      CutNamespaced(tenant, "group", id);
    case Tier(name) =>
      CutAbsent(name, ':');
  }

  /** Printing inverts parsing on every accepted string, and only constructible keys are parsed. */
  lemma ShowInvertsParse(s: string)
    requires ParseKey(s).Some?
    ensures Constructible(ParseKey(s).value) && Show(ParseKey(s).value) == s
  {
    hide Cut, Constructible;
    var k := ParseKey(s).value;
    CutParts(s, ':');
    ShowNamespaced(k);
    if Cut(s, ':').Some? {
      var (tenant, rest) := Cut(s, ':').value;
      CutParts(rest, ':');
      var (ns, id) := Cut(rest, ':').value;
      CutParts(id, '/');
      assert s == tenant + ":" + ns + ":" + id;
      assert ns == if k.Channel? then "group" else "content";
      assert id == if k.Version? then k.id + "/" + k.version else k.id;
    }
  }

  /** The bound is attained by a version key of a longest tenant. */
  lemma BoundAttained(tenant: string, id: string, version: string)
    requires ValidTenant(tenant) && |tenant| == MAX_TENANT && ValidID(id) && ValidID(version)
    ensures Constructible(Version(tenant, id, version)) && |Show(Version(tenant, id, version))| == MAX_KEY_BYTES
  {}

  /** A text with exactly two colons starts with a two-colon prefix only when the parts agree. */
  lemma TwoColons(tenant: string, ns: string, rest: string, tenant': string, ns': string)
    requires ':' !in tenant && ':' !in ns && ':' !in rest && ':' !in ns'
    ensures tenant' + ":" + ns' + ":" <= tenant + ":" + ns + ":" + rest <==> tenant' == tenant && ns' == ns
  {
    var s, p := tenant + ":" + ns + ":" + rest, tenant' + ":" + ns' + ":";
    var i, j := |tenant|, |tenant| + 1 + |ns|;
    forall n | 0 <= n < i ensures s[n] != ':' { assert s[n] in tenant; }
    forall n | i < n < j ensures s[n] != ':' { assert s[n] == ns[n - i - 1] && s[n] in ns; }
    forall n | j < n < |s| ensures s[n] != ':' { assert s[n] == rest[n - j - 1] && s[n] in rest; }
    if p <= s {
      assert p[|tenant'|] == ':' && p[|tenant'| + 1 + |ns'|] == ':';
      assert s[..|p|] == p;
      assert |tenant'| == i && |ns'| == |ns|;
      assert tenant' == p[..i] == s[..i] == tenant;
      assert ns' == p[i + 1..j] == s[i + 1..j] == ns;
    }
  }

  /** For any string tenant at all: a key's text starts with its content prefix exactly when it is that
      tenant's content or version key, and with its channel prefix exactly when it is its channel key. */
  lemma PrefixesIdentify(k: Key, tenant: string)
    requires Constructible(k)
    ensures ContentPrefix(tenant) <= Show(k) <==> (k.Content? || k.Version?) && k.tenant == tenant
    ensures ChannelPrefix(tenant) <= Show(k) <==> k.Channel? && k.tenant == tenant
  {
    hide ValidID;
    var content, channel := "content", "group";
    assert ContentPrefix(tenant) == tenant + ":" + content + ":";
    assert ChannelPrefix(tenant) == tenant + ":" + channel + ":";
    ShowNamespaced(k);
    match k
    case Content(t, id) =>
      ValidIDChars(id);
      TwoColons(t, content, id, tenant, content);
      TwoColons(t, content, id, tenant, channel);
    case Version(t, id, v) =>
      ValidIDChars(id);
      ValidIDChars(v);
      TwoColons(t, content, id + "/" + v, tenant, content);
      TwoColons(t, content, id + "/" + v, tenant, channel);
    case Channel(t, id) =>
      ValidIDChars(id);
      TwoColons(t, channel, id, tenant, content);
      TwoColons(t, channel, id, tenant, channel);
    case Tier(name) =>
      assert forall n | 0 <= n < |name| :: name[n] in name && name[n] != ':';
      assert ContentPrefix(tenant)[|tenant|] == ChannelPrefix(tenant)[|tenant|] == ':';
  }

  /** ValidTenant's scan. */
  method CheckTenant(s: string) returns (ok: bool)
    ensures ok <==> ValidTenant(s)
    ensures ok <==> 1 <= |s| <= 64 && forall ch <- s :: 'a' <= ch <= 'z' || '0' <= ch <= '9' || ch in "_-"
  {
    if s == "" || |s| > MAX_TENANT { return false; }
    for i := 0 to |s|
      invariant forall ch <- s[..i] :: 'a' <= ch <= 'z' || '0' <= ch <= '9' || ch == '_' || ch == '-'
    {
      var c := s[i];
      assert c in s && s[..i + 1] == s[..i] + [c];
      if !('a' <= c <= 'z' || '0' <= c <= '9' || c == '_' || c == '-') { return false; }
    }
    assert s[..|s|] == s;
    return true;
  }

  /** The accepted texts, kind by kind, in the grammar's own terms. */
  lemma ParsesExactly(s: string, k: Key)
    ensures ParseKey(s) == Some(k) <==>
              match k
              case Content(tenant, id) => ValidTenant(tenant) && ValidID(id) && s == tenant + ":content:" + id
              case Version(tenant, id, version) =>
                ValidTenant(tenant) && ValidID(id) && ValidID(version) && s == tenant + ":content:" + id + "/" + version
              case Channel(tenant, id) => ValidTenant(tenant) && ValidID(id) && s == tenant + ":group:" + id
              case Tier(name) =>
                1 <= |name| <= 63 && 'a' <= name[0] <= 'z' && s == name
                && forall ch <- name :: 'a' <= ch <= 'z' || '0' <= ch <= '9' || ch in "_-"
  {
    if ParseKey(s) == Some(k) { ShowInvertsParse(s); }
    if Constructible(k) { ParseInvertsShow(k); }
    hide ParseKey, ValidID;
  }
}
