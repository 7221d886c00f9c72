/** The storage-contract details page: which server calls it makes for the
    query parameters it is opened with, what it shows for each outcome, and
    how it picks the unit a file length is shown in. */
module ContractDetails {
  import opened Common

  datatype StorageContract = StorageContract(
    fileUrl: string, storerAddress: string, merkleRoot: string, timestamp: int,
    value: int, proofFrequency: int, windowSize: int, fileLength: int, storageType: string,
    fccnSignature: Option<string>, storerSignature: Option<string>)

  datatype WindowState = Pending | Proving | Proved | Failed

  datatype FileProvingWindow = FileProvingWindow(
    poDpChallenge: string, startBlockIndex: int, endBlockIndex: int, state: WindowState)

  /** The server calls the page can make. */
  datatype Request = GetStorageContract(contractHash: string, fileUrl: string)
                   | GetProvingWindows(contractHash: string)

  datatype Details = Details(storageContract: Option<StorageContract>,
                             fileProvingWindows: seq<FileProvingWindow>)

  /** Nothing loaded: the page shows "Storage contract not found". */
  const Initial := Details(None, [])

  // ---------------------------------------------------------------------
  // Opening the page

  /** A query parameter counts as given when it is present and not empty
      (JavaScript truthiness of `queryParamMap.get`). */
  predicate Given(param: Option<string>) {
    param.Some? && param.value != ""
  }

  /** `fetchStorageContract`: the answer replaces the contract; a rejected
      call, like an absent answer, leaves none. */
  function FetchStorageContract(d: Details, response: Fetch<Option<StorageContract>>): (r: Details)
    ensures r.fileProvingWindows == d.fileProvingWindows
    ensures r.storageContract.Some? <==> response.Ok? && response.value.Some?
    ensures r.storageContract.Some? ==> r.storageContract == response.value
  {
    match response
    case Ok(contract) => d.(storageContract := contract)
    case Err => d.(storageContract := None)
  }

  /** `fetchFileProvingWindows`: the answer replaces the windows; a rejected
      call or an absent answer (`response || []`) leaves none. */
  function FetchFileProvingWindows(d: Details, response: Fetch<Option<seq<FileProvingWindow>>>): (r: Details)
    ensures r.storageContract == d.storageContract
    ensures response.Ok? && response.value.Some? ==> r.fileProvingWindows == response.value.value
    ensures !(response.Ok? && response.value.Some?) ==> r.fileProvingWindows == []
  {
    match response
    case Ok(Some(windows)) => d.(fileProvingWindows := windows)
    case _ => d.(fileProvingWindows := [])
  }

  /** The calls `ngOnInit` makes, in order. */
  function Requests(contractHash: Option<string>, fileUrl: Option<string>): (r: seq<Request>)
    ensures r == [] <==> !Given(contractHash) || !Given(fileUrl)
    ensures r != [] ==> |r| == 2 && r[0].GetStorageContract? && r[1].GetProvingWindows?
    ensures r != [] ==> r[0].contractHash == r[1].contractHash == contractHash.value
                        && r[0].fileUrl == fileUrl.value
  {
    if Given(contractHash) && Given(fileUrl) then
      [GetStorageContract(contractHash.value, fileUrl.value), GetProvingWindows(contractHash.value)]
    else []
  }

  /** `ngOnInit` run to completion, given the query parameters and the
      server's answers to the two calls `Requests` lists (ignored when the
      calls are not made). The contract call is awaited first, and the
      window call is made whatever its outcome. */
  function Init(contractHash: Option<string>, fileUrl: Option<string>,
                contractResponse: Fetch<Option<StorageContract>>,
                windowsResponse: Fetch<Option<seq<FileProvingWindow>>>): (r: Details)
    ensures Requests(contractHash, fileUrl) == [] ==> r == Initial
  {
    if Given(contractHash) && Given(fileUrl) then
      FetchFileProvingWindows(FetchStorageContract(Initial, contractResponse), windowsResponse)
    else Initial
  }

  /** The page shows a contract exactly when both parameters were given and
      the server returned one. */
  lemma ContractShownIff(contractHash: Option<string>, fileUrl: Option<string>,
                         contractResponse: Fetch<Option<StorageContract>>,
                         windowsResponse: Fetch<Option<seq<FileProvingWindow>>>)
    ensures Init(contractHash, fileUrl, contractResponse, windowsResponse).storageContract.Some?
        <==> Given(contractHash) && Given(fileUrl) && contractResponse.Ok? && contractResponse.value.Some?
    ensures Init(contractHash, fileUrl, contractResponse, windowsResponse).storageContract.Some?
        ==> Init(contractHash, fileUrl, contractResponse, windowsResponse).storageContract == contractResponse.value
  {
  }

  /** The windows shown are the server's list exactly when both parameters
      were given and the server returned a list; otherwise none. */
  lemma WindowsShown(contractHash: Option<string>, fileUrl: Option<string>,
                     contractResponse: Fetch<Option<StorageContract>>,
                     windowsResponse: Fetch<Option<seq<FileProvingWindow>>>)
    ensures Given(contractHash) && Given(fileUrl) && windowsResponse.Ok? && windowsResponse.value.Some?
        ==> Init(contractHash, fileUrl, contractResponse, windowsResponse).fileProvingWindows
            == windowsResponse.value.value
    ensures !(Given(contractHash) && Given(fileUrl) && windowsResponse.Ok? && windowsResponse.value.Some?)
        ==> Init(contractHash, fileUrl, contractResponse, windowsResponse).fileProvingWindows == []
  {
  }

  /** A failed contract call does not stop the window call: the windows
      shown do not depend on the contract call's outcome. */
  lemma WindowsIndependentOfContract(contractHash: Option<string>, fileUrl: Option<string>,
                                     a: Fetch<Option<StorageContract>>, b: Fetch<Option<StorageContract>>,
                                     windowsResponse: Fetch<Option<seq<FileProvingWindow>>>)
    ensures Init(contractHash, fileUrl, a, windowsResponse).fileProvingWindows
         == Init(contractHash, fileUrl, b, windowsResponse).fileProvingWindows
  {
  }

  // ---------------------------------------------------------------------
  // File length units

  const Units: seq<string> := ["Bytes", "KB", "MB", "GB", "TB"]

  function Pow1000(k: nat): (p: nat)
    ensures p >= 1
  {
    if k == 0 then 1 else 1000 * Pow1000(k - 1)
  }

  lemma {:induction false} Pow1000Monotone(j: nat, k: nat)
    requires j <= k
    ensures Pow1000(j) <= Pow1000(k)
    decreases k
  {
    if j < k {
      Pow1000Monotone(j, k - 1);
    }
  }

  /** `k` is the largest unit index whose power of 1000 does not exceed `bytes`. */
  predicate IsLargestUnit(bytes: int, k: nat) {
    k < |Units| && Pow1000(k) <= bytes
    && forall j :: k < j < |Units| ==> bytes < Pow1000(j)
  }

  /** What `formatFileLength` shows: a whole number of bytes, or the length
      scaled to a larger unit, whose text is `(bytes / 1000^unitIndex)`
      rendered with two decimals followed by the unit's name. */
  datatype LengthLabel = Whole(text: string) | Scaled(bytes: nat, unitIndex: nat)

  /** `formatFileLength`, with the repeated division by 1000 carried as an
      exact divisor: `value >= 1000` is `bytes >= 1000 * divisor`. */
  method FormatFileLength(bytes: int) returns (shown: LengthLabel)
    ensures bytes <= 0 ==> shown == Whole("0 Bytes")
    ensures 0 < bytes < 1000 ==> shown == Whole(Decimal(bytes) + " Bytes")
    ensures bytes >= 1000 ==> shown.Scaled? && shown.bytes == bytes && shown.unitIndex >= 1
                              && IsLargestUnit(bytes, shown.unitIndex)
  {
    if bytes <= 0 {
      return Whole("0 Bytes");
    }
    var divisor := 1;
    var unitIndex := 0;
    while bytes >= 1000 * divisor && unitIndex < |Units| - 1
      invariant 0 <= unitIndex < |Units|
      invariant divisor == Pow1000(unitIndex) <= bytes
    {
      divisor := divisor * 1000;
      unitIndex := unitIndex + 1;
    }
    forall j | unitIndex < j < |Units| ensures bytes < Pow1000(j) {
      Pow1000Monotone(unitIndex + 1, j);
    }
    if unitIndex == 0 {
      shown := Whole(Decimal(bytes) + " " + Units[0]);
    } else {
      shown := Scaled(bytes, unitIndex);
    }
  }

  /** The unit is well defined: one length has one largest unit. */
  lemma LargestUnitUnique(bytes: int, k: nat, m: nat)
    requires IsLargestUnit(bytes, k) && IsLargestUnit(bytes, m)
    ensures k == m
  {
  }

  /** Longer files never get a smaller unit. */
  lemma LargestUnitMonotone(a: int, b: int, k: nat, m: nat)
    requires a <= b && IsLargestUnit(a, k) && IsLargestUnit(b, m)
    ensures k <= m
  {
  }

  /** A scaled length is shown as a number from 1 up to (not including)
      1000 of its unit, except in terabytes, which has no upper bound. */
  lemma ScaledRange(bytes: int, k: nat)
    requires IsLargestUnit(bytes, k)
    ensures Pow1000(k) <= bytes
    ensures k < |Units| - 1 ==> bytes < 1000 * Pow1000(k)
  {
    if k < |Units| - 1 {
      assert bytes < Pow1000(k + 1);
    }
  }

  /** 1000^5 bytes and more stay in terabytes. */
  lemma PetabyteExample()
    ensures IsLargestUnit(Pow1000(5), 4)
  {
  }

  /** 999 999 bytes are shown in kilobytes, 1 000 000 in megabytes. */
  lemma MegabyteBoundaryExample()
    ensures IsLargestUnit(999_999, 1) && IsLargestUnit(1_000_000, 2)
  {
  }
}
