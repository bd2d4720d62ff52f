/** LangChain's `Document` record as the core uses it: text plus a flat
    string-to-string metadata mapping. */
module Documents {

  datatype Document = Document(pageContent: string, metadata: map<string, string>)
}
