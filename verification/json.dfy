/** The parsed JSON body that the host's HTTP helper hands back. */
module Json {

  datatype JVal =
    | JNull
    | JBool(b: bool)
    | JNum(n: int)
    | JStr(s: string)
    | JArray(elems: seq<JVal>)
    | JObject(fields: seq<(string, JVal)>)
}
