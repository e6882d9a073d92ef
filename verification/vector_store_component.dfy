/** Backend selection of `VectorStoreComponent.__init__` in
    langchain_emoji/components/vector_store/vector_store_component.py. */
module VectorStoreComponent {
  import opened Wrappers

  /** `settings.vectorstore.tcvectordb`. */
  datatype TcVectorDbSettings = TcVectorDbSettings(
    url: string,
    apiKey: string,
    databaseName: string,
    collectionName: string)

  /** `settings.vectorstore`: the backend name and the Tencent settings. */
  datatype VectorStoreSettings = VectorStoreSettings(
    database: string,
    tcvectordb: TcVectorDbSettings)

  /** `ConnectionParams(url=..., key=...)`. */
  datatype ConnectionParams = ConnectionParams(url: string, key: string)

  /** The only store the component can build: `EmojiTencentVectorDB`.
      (`EmojiChroma` exists but no backend name selects it.) */
  datatype VectorStore = EmojiTencentVectorDB(
    connectionParams: ConnectionParams,
    databaseName: string,
    collectionName: string)

  /** The `ValueError` raised for any other backend name. */
  datatype UnsupportedBackend = UnsupportedBackend(message: string)

  const UnsupportedPrefix := "Vectorstore database "
  const UnsupportedSuffix := " not supported"

  function Create(settings: VectorStoreSettings): (r: Result<VectorStore, UnsupportedBackend>)
    ensures r.Success? <==> settings.database == "tcvectordb"
    ensures r.Success? ==>
              var tc := settings.tcvectordb;
              r.value == EmojiTencentVectorDB(ConnectionParams(tc.url, tc.apiKey),
                                              tc.databaseName, tc.collectionName)
    ensures r.Failure? ==>
              var m := r.error.message;
              var n := |UnsupportedPrefix|;
              |m| == n + |settings.database| + |UnsupportedSuffix|
              && m[..n] == UnsupportedPrefix
              && m[n..n + |settings.database|] == settings.database
              && m[n + |settings.database|..] == UnsupportedSuffix
  {
    match settings.database
    case "tcvectordb" =>
      var tc := settings.tcvectordb;
      Success(EmojiTencentVectorDB(
        connectionParams := ConnectionParams(url := tc.url, key := tc.apiKey),
        databaseName := tc.databaseName,
        collectionName := tc.collectionName))
    case _ =>
      Failure(UnsupportedBackend(UnsupportedPrefix + settings.database + UnsupportedSuffix))
  }
}
