/**
 * One entry of the knowledge base (`database.json`): what the report says
 * about a reference image. The fields are passed through uninterpreted.
 */
module Records {

  datatype Record = Record(
    diseaseName: string,
    confidence: string,
    status: string,
    description: string,
    treatment: string)

  /** The knowledge base: reference file name to record. */
  type KnowledgeBase = map<string, Record>
}
