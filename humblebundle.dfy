/** The storefront API client (humblebundle.go): the decoded order records,
    the file extension of a download type, and the error handling of the two
    order queries. HTTP, the session cookie and JSON decoding are outside the
    model: a query's response is given as an abstract outcome, and the
    decoded value is part of that outcome. */
module HumbleBundle {
  import opened Common
  import opened GoStrings

  /** One downloadable format of a product (PDF, EPUB, ...). */
  datatype DownloadType = DownloadType(
    sha1: string,
    name: string,
    web: string,
    bitTorrent: string,
    humanSize: string,
    fileSize: int,
    md5: string)

  /** An entry of the user's order list. */
  datatype OrderKey = OrderKey(gamekey: string)

  datatype ProductInfo = ProductInfo(category: string, machineName: string, humanName: string)

  /** A download group: the formats of a product under one platform tag. */
  datatype Download = Download(
    machineName: string,
    humanName: string,
    platform: string,
    downloadTypes: seq<DownloadType>)

  datatype SubProduct = SubProduct(
    machineName: string,
    humanName: string,
    url: string,
    downloads: seq<Download>)

  /** A purchase record. The float `AmountSpent` is not modelled. */
  datatype Order = Order(
    product: ProductInfo,
    gameKey: string,
    uid: string,
    created: string,
    products: seq<SubProduct>)

  /** The zero value of an order, which `GetOrder` returns with its errors. */
  const ZeroOrder := Order(ProductInfo("", "", ""), "", "", "", [])

  /** `fileExtension`: the format name with ONE leading dot trimmed, in lower
      case. Position `i` of the result is position `i + 1` of the name when
      the name starts with a dot, and position `i` otherwise. */
  function FileExtension(dt: DownloadType): (ext: string)
    ensures HasPrefix(dt.name, ".") ==> |ext| == |dt.name| - 1
    ensures HasPrefix(dt.name, ".") ==>
      forall i :: 0 <= i < |ext| ==> ext[i] == LowerChar(dt.name[i + 1])
    ensures !HasPrefix(dt.name, ".") ==> |ext| == |dt.name|
    ensures !HasPrefix(dt.name, ".") ==>
      forall i :: 0 <= i < |ext| ==> ext[i] == LowerChar(dt.name[i])
    ensures forall i :: 0 <= i < |ext| ==> !IsUpper(ext[i])
  {
    ToLower(TrimPrefix(dt.name, "."))
  }

  /** Only one dot is trimmed: a name `..PDF` gives `.pdf`. */
  lemma FileExtensionTrimsOneDot(dt: DownloadType)
    requires dt.name == "..PDF"
    ensures FileExtension(dt) == ".pdf"
  {
  }

  /** The outcome of one authenticated GET: a transport failure, or a status
      code, whether reading the body failed, and what decoding the body left
      in the target value together with whether decoding reported an error. */
  datatype ApiResponse<T> =
    | TransportFailed
    | Received(status: int, readOk: bool, decoded: T, decodeOk: bool)

  datatype ApiError = TransportError | BadStatus(status: int) | ReadError | UnmarshalError

  /** How a query ends: the process exits through `log.Fatalf`, or the
      function returns a value together with an optional error. */
  datatype Call<T> = Exit(cause: ApiError) | Return(value: T, err: Option<ApiError>)

  const StatusOK := 200

  /** The `append` loop of `GetOrders`: the game key of every order, in
      order. */
  method CollectKeys(orders: seq<OrderKey>) returns (keys: seq<string>)
    ensures |keys| == |orders|
    ensures forall i :: 0 <= i < |orders| ==> keys[i] == orders[i].gamekey
  {
    keys := [];
    var i := 0;
    while i < |orders|
      invariant 0 <= i <= |orders|
      invariant |keys| == i
      invariant forall k :: 0 <= k < i ==> keys[k] == orders[k].gamekey
    {
      keys := keys + [orders[i].gamekey];
      i := i + 1;
    }
  }

  /** `GetOrders`: a transport failure or a status other than 200 ends the
      process; a read error is ignored (decoding still runs on what was read);
      a decoding error returns no keys and an error; otherwise every order's
      key is returned, in order, without error. */
  method GetOrders(resp: ApiResponse<seq<OrderKey>>) returns (r: Call<seq<string>>)
    ensures resp.TransportFailed? ==> r == Exit(TransportError)
    ensures resp.Received? && resp.status != StatusOK ==> r == Exit(BadStatus(resp.status))
    ensures resp.Received? && resp.status == StatusOK && !resp.decodeOk ==>
      r == Return([], Some(UnmarshalError))
    ensures resp.Received? && resp.status == StatusOK && resp.decodeOk ==>
      && r.Return? && r.err == None
      && |r.value| == |resp.decoded|
      && forall i :: 0 <= i < |resp.decoded| ==> r.value[i] == resp.decoded[i].gamekey
  {
    if resp.TransportFailed? {
      return Exit(TransportError);
    }
    if resp.status != StatusOK {
      return Exit(BadStatus(resp.status));
    }
    if !resp.decodeOk {
      return Return([], Some(UnmarshalError));
    }
    var keys := CollectKeys(resp.decoded);
    return Return(keys, None);
  }

  /** `GetOrder`: never exits the process. A transport failure, then a status
      other than 200, then a read error each return the zero order with an
      error, checked in that order; otherwise whatever decoding produced is
      returned, with an error exactly when decoding failed. */
  method GetOrder(resp: ApiResponse<Order>) returns (r: Call<Order>)
    ensures r.Return?
    ensures r.err == None <==> resp.Received? && resp.status == StatusOK && resp.readOk && resp.decodeOk
    ensures resp.TransportFailed? ==> r == Return(ZeroOrder, Some(TransportError))
    ensures resp.Received? && resp.status != StatusOK ==>
      r == Return(ZeroOrder, Some(BadStatus(resp.status)))
    ensures resp.Received? && resp.status == StatusOK && !resp.readOk ==>
      r == Return(ZeroOrder, Some(ReadError))
    ensures resp.Received? && resp.status == StatusOK && resp.readOk ==>
      r.value == resp.decoded && (r.err == None || r.err == Some(UnmarshalError))
  {
    var order := ZeroOrder;
    if resp.TransportFailed? {
      return Return(order, Some(TransportError));
    }
    if resp.status != StatusOK {
      return Return(order, Some(BadStatus(resp.status)));
    }
    if !resp.readOk {
      return Return(order, Some(ReadError));
    }
    order := resp.decoded;
    var err := if resp.decodeOk then None else Some(UnmarshalError);
    return Return(order, err);
  }
}
